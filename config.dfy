/**
 * The settings of Config (app/config.py) that are computed from the
 * environment: the database URI, the allowed upload extensions and the
 * upload size limit. An environment variable is an Option: None when it
 * is not set.
 */
module Config {
  import opened Wrappers
  import opened Strings

  const PostgresScheme := "postgres://"
  const PostgresqlScheme := "postgresql://"

  /**
   * The rewrite of SQLALCHEMY_DATABASE_URI: a URI that starts with
   * "postgres://" has that prefix replaced by "postgresql://" (replace with
   * count 1, and the first occurrence is the prefix); any other URI is kept.
   */
  function RewriteDatabaseUri(uri: string): (r: string)
    ensures StartsWith(uri, PostgresScheme) ==> r == PostgresqlScheme + uri[|PostgresScheme|..]
    ensures !StartsWith(uri, PostgresScheme) ==> r == uri
  {
    if uri != "" && StartsWith(uri, PostgresScheme) then
      assert OccursAt(uri, PostgresScheme, 0);
      ReplaceFirst(uri, PostgresScheme, PostgresqlScheme)
    else uri
  }

  /** Rewriting twice is rewriting once: a rewritten URI starts with "postgresql://", which is not "postgres://". */
  lemma RewriteIdempotent(uri: string)
    ensures RewriteDatabaseUri(RewriteDatabaseUri(uri)) == RewriteDatabaseUri(uri)
  {
    var r := RewriteDatabaseUri(uri);
    if StartsWith(uri, PostgresScheme) {
      assert r[8] == 'q';
    }
  }

  /** str(base_dir / name) for a directory path and a plain file name. */
  function PathJoin(dir: string, name: string): (r: string)
    ensures |dir| + |name| <= |r| && r[..|dir|] == dir && r[|r| - |name|..] == name
  {
    var sep := if dir != "" && dir[|dir| - 1] == '/' then "" else "/";
    var r := dir + sep + name;
    assert r[..|dir|] == dir && r[|r| - |name|..] == name;
    r
  }

  /** The SQLite file under the base directory used when DATABASE_URL is unset. */
  function DefaultDatabaseUri(baseDir: string): (r: string)
    ensures StartsWith(r, "sqlite:///") && !StartsWith(r, PostgresScheme)
  {
    var uri := "sqlite:///" + PathJoin(baseDir, "hr_resume.db");
    assert uri[..10] == "sqlite:///";
    assert uri[0] != PostgresScheme[0];
    uri
  }

  /**
   * SQLALCHEMY_DATABASE_URI: DATABASE_URL, by default an SQLite file under
   * the base directory, with the rewrite applied. The default is never
   * rewritten.
   */
  function DatabaseUri(databaseUrl: Option<string>, baseDir: string): (r: string)
    ensures databaseUrl.None? ==> r == DefaultDatabaseUri(baseDir) && StartsWith(r, "sqlite:///")
    ensures databaseUrl.Some? ==> r == RewriteDatabaseUri(databaseUrl.value)
  {
    var uri := match databaseUrl case Some(url) => url case None => DefaultDatabaseUri(baseDir);
    RewriteDatabaseUri(uri)
  }

  /** ALLOWED_EXTENSIONS: the set of comma-separated pieces of the variable, "pdf,docx" when unset. */
  function AllowedExtensions(env: Option<string>): (r: set<string>)
    ensures forall x :: x in r ==> ',' !in x
    ensures env.Some? && ',' !in env.value ==> r == {env.value}
  {
    var raw := match env case None => "pdf,docx" case Some(v) => v;
    var pieces := Split(raw, ',');
    assert ',' !in raw ==> pieces == [raw] by {
      if ',' !in raw {
        SplitWithoutSep(raw, ',');
      }
    }
    set x | x in pieces
  }

  /** Unset, the variable allows PDF and DOCX files. */
  lemma DefaultExtensions()
    ensures AllowedExtensions(None) == {"pdf", "docx"}
  {
    SplitJoin(["pdf", "docx"], ',');
    assert Join(["pdf", "docx"], ',') == "pdf,docx";
  }

  /** Listing comma-free extensions in the variable gives exactly those extensions. */
  lemma AllowedExtensionsListed(names: seq<string>)
    requires |names| >= 1 && forall k :: 0 <= k < |names| ==> ',' !in names[k]
    ensures AllowedExtensions(Some(Join(names, ','))) == set x | x in names
  {
    SplitJoin(names, ',');
  }

  // ---------------------------------------------------------------------
  // MAX_CONTENT_LENGTH = int(os.getenv('MAX_CONTENT_LENGTH', 16 * 1024 * 1024))
  // ---------------------------------------------------------------------

  const DefaultMaxContentLength: int := 16 * 1024 * 1024

  /** The digits of s, with single underscores between digits allowed, as int() reads them. */
  predicate IsDigitString(s: string) {
    s != [] && IsAsciiDigit(s[0]) && IsAsciiDigit(s[|s| - 1])
    && (forall i :: 0 <= i < |s| ==> IsAsciiDigit(s[i]) || s[i] == '_')
    && (forall i :: 0 <= i < |s| - 1 ==> !(s[i] == '_' && s[i + 1] == '_'))
  }

  /** The value of a string of digits and underscores, read left to right. */
  function DigitsValue(s: string): (n: nat)
    requires forall i :: 0 <= i < |s| ==> IsAsciiDigit(s[i]) || s[i] == '_'
    decreases |s|
  {
    if s == [] then 0
    else
      var last := s[|s| - 1];
      var front := DigitsValue(s[..|s| - 1]);
      assert IsAsciiDigit(last) || last == '_';
      if last == '_' then front else 10 * front + (last as int - '0' as int)
  }

  /** An optional sign, then digits: the literals int() accepts once stripped. */
  predicate IsIntLiteral(t: string) {
    IsDigitString(t) || (t != "" && (t[0] == '+' || t[0] == '-') && IsDigitString(t[1..]))
  }

  /** Why int() refuses a string. */
  datatype ParseError = InvalidLiteral(text: string)

  /**
   * Python's int(s) on a str: surrounding whitespace, an optional sign and
   * decimal digits with single underscores between them; anything else is a
   * ValueError.
   */
  function ParseInt(s: string): (r: Result<int, ParseError>)
    ensures r.Failure? <==> !IsIntLiteral(Strip(s))
    ensures r.Success? && Strip(s) != "" && Strip(s)[0] == '-' ==> r.value <= 0
    ensures r.Success? && Strip(s) != "" && Strip(s)[0] != '-' ==> r.value >= 0
  {
    var t := Strip(s);
    if IsDigitString(t) then Success(DigitsValue(t))
    else if t != "" && t[0] == '+' && IsDigitString(t[1..]) then Success(DigitsValue(t[1..]))
    else if t != "" && t[0] == '-' && IsDigitString(t[1..]) then
      var magnitude: int := DigitsValue(t[1..]);
      Success(-magnitude)
    else Failure(InvalidLiteral(s))
  }

  /** The decimal digits of n, as str(n) writes them. */
  function Decimal(n: nat): (r: string)
    ensures r != [] && forall i :: 0 <= i < |r| ==> IsAsciiDigit(r[i])
  {
    var d := ('0' as int + n % 10) as char;
    if n < 10 then [d] else Decimal(n / 10) + [d]
  }

  /** Reading back the digits str(n) writes gives n. */
  lemma {:induction false} DecimalValue(n: nat)
    ensures DigitsValue(Decimal(n)) == n
  {
    var r := Decimal(n);
    if n >= 10 {
      DecimalValue(n / 10);
      assert r[..|r| - 1] == Decimal(n / 10);
    }
  }

  /** int(str(n)) == n for every n >= 0. */
  lemma ParseIntDecimal(n: nat)
    ensures ParseInt(Decimal(n)) == Success(n)
  {
    var r := Decimal(n);
    StripTrimmed(r);
    DecimalValue(n);
  }

  /**
   * MAX_CONTENT_LENGTH: the variable read by int(), or 16 MiB when it is
   * unset; a value int() refuses makes loading the configuration fail.
   */
  function MaxContentLength(env: Option<string>): (r: Result<int, ParseError>)
    ensures env.None? ==> r == Success(16777216)
    ensures env.Some? ==> r == ParseInt(env.value)
  {
    match env
    case None => Success(DefaultMaxContentLength)
    case Some(v) => ParseInt(v)
  }
}

/**
 * Hand-written scanners for the regular expressions the resume code passes
 * to re.search and re.findall. A scanner tries start positions from left to
 * right and, at one start, tries the alternatives in the order Python's
 * backtracking matcher does (a greedy repetition longest first), so the match
 * it returns is the match Python returns. Each scanner is specified by a
 * declarative predicate saying what a match of the pattern is.
 *
 * Approximations: \b and \w use Strings.IsWordChar and \d uses the ASCII
 * digits, where Python's str patterns use the Unicode categories;
 * re.IGNORECASE compares through Strings.LowerChar.
 */
module Patterns {
  import opened Wrappers
  import opened Strings

  function Min(a: nat, b: nat): nat { if a <= b then a else b }

  /** Python's \b between s[i - 1] and s[i]. */
  predicate Boundary(s: string, i: nat)
    requires i <= |s|
  {
    (i > 0 && IsWordChar(s[i - 1])) != (i < |s| && IsWordChar(s[i]))
  }

  /** The end of the run of characters satisfying p that starts at i. */
  function RunEnd(s: string, i: nat, p: char -> bool): (j: nat)
    requires i <= |s|
    ensures i <= j <= |s|
    ensures forall k: nat :: i <= k < j ==> p(s[k])
    ensures j < |s| ==> !p(s[j])
    decreases |s| - i
  {
    if i < |s| && p(s[i]) then RunEnd(s, i + 1, p) else i
  }

  /** A run of p-characters from i to g ends no earlier than g. */
  lemma RunEndCovers(s: string, i: nat, p: char -> bool, g: nat)
    requires i <= g <= |s|
    requires forall k: nat :: i <= k < g ==> p(s[k])
    ensures g <= RunEnd(s, i, p)
  {
  }

  /** The largest g in [lo, hi] at which \b holds. */
  function LastBoundary(s: string, lo: nat, hi: nat): (r: Option<nat>)
    requires hi <= |s|
    ensures r.Some? ==> lo <= r.value <= hi && Boundary(s, r.value)
    ensures forall g: nat :: lo <= g <= hi && Boundary(s, g) ==> r.Some? && g <= r.value
    decreases hi
  {
    if hi < lo then None
    else if Boundary(s, hi) then Some(hi)
    else if hi == 0 then None
    else LastBoundary(s, lo, hi - 1)
  }

  // ---------------------------------------------------------------------
  // \b[A-Za-z0-9._%+-]+@[A-Za-z0-9.-]+\.[A-Z|a-z]{2,}\b
  // ---------------------------------------------------------------------

  /** [A-Za-z0-9._%+-] */
  predicate IsLocalChar(c: char) {
    IsAsciiAlnum(c) || c == '.' || c == '_' || c == '%' || c == '+' || c == '-'
  }

  /** [A-Za-z0-9.-] */
  predicate IsDomainChar(c: char) { IsAsciiAlnum(c) || c == '.' || c == '-' }

  /** [A-Z|a-z]: the '|' inside the class is a literal character. */
  predicate IsTldChar(c: char) { IsAsciiLetter(c) || c == '|' }

  /** Where a match of the email pattern has its '@', its '\.' and its end. */
  datatype EmailSpan = EmailSpan(at: nat, dot: nat, end: nat)

  /** `\.[A-Z|a-z]{2,}\b` matches s[e..g]. */
  predicate TldAt(s: string, e: nat, g: nat) {
    e < |s| && s[e] == '.' && e + 3 <= g <= |s|
    && (forall k: nat :: e < k < g ==> IsTldChar(s[k])) && Boundary(s, g)
  }

  /** The email pattern matches s[i..g], with its '@' at a and its '\.' at e. */
  predicate EmailAt(s: string, i: nat, a: nat, e: nat, g: nat) {
    i < a && a + 1 < e && e < |s| && g <= |s|
    && (forall k: nat :: i <= k < a ==> IsLocalChar(s[k]))
    && s[a] == '@'
    && (forall k: nat :: a < k < e ==> IsDomainChar(s[k]))
    && TldAt(s, e, g)
    && Boundary(s, i)
  }

  /** `[A-Z|a-z]{2,}\b` after the '.' at e, the longest run first. */
  function TldEnd(s: string, e: nat): (r: Option<nat>)
    requires e < |s|
    ensures r.Some? ==> TldAt(s, e, r.value)
    ensures forall g: nat :: TldAt(s, e, g) ==> r.Some? && g <= r.value
  {
    if s[e] != '.' then None
    else
      var f := RunEnd(s, e + 1, IsTldChar);
      var r := LastBoundary(s, e + 3, f);
      assert forall g: nat :: TldAt(s, e, g) ==> g <= f by {
        forall g: nat | TldAt(s, e, g) ensures g <= f {
          RunEndCovers(s, e + 1, IsTldChar, g);
        }
      }
      r
  }

  /**
   * `[A-Za-z0-9.-]+\.TLD` after the '@' at a, where the domain run ends at
   * hi or later: the longest domain part first, as the greedy `+` backtracks.
   */
  function DotSearch(s: string, a: nat, hi: nat): (r: Option<(nat, nat)>)
    requires a < hi <= |s|
    ensures r.Some? ==> a + 2 <= r.value.0 < hi && TldAt(s, r.value.0, r.value.1)
    ensures forall e: nat, g: nat :: a + 2 <= e < hi && TldAt(s, e, g) ==>
      r.Some? && (e < r.value.0 || (e == r.value.0 && g <= r.value.1))
    decreases hi
  {
    if hi <= a + 2 then None
    else
      match TldEnd(s, hi - 1)
      case Some(g) => Some((hi - 1, g))
      case None => DotSearch(s, a, hi - 1)
  }

  /** The email pattern tried at start i. */
  function EmailMatchAt(s: string, i: nat): (r: Option<EmailSpan>)
    requires i <= |s|
    ensures r.Some? ==> EmailAt(s, i, r.value.at, r.value.dot, r.value.end)
    ensures forall a: nat, e: nat, g: nat :: EmailAt(s, i, a, e, g) ==>
      r.Some? && a == r.value.at && (e < r.value.dot || (e == r.value.dot && g <= r.value.end))
  {
    var a := RunEnd(s, i, IsLocalChar);
    if !Boundary(s, i) || a == i || a == |s| || s[a] != '@' then None
    else
      var k := RunEnd(s, a + 1, IsDomainChar);
      assert forall a': nat, e: nat, g: nat :: EmailAt(s, i, a', e, g) ==> a' == a && e < k by {
        forall a': nat, e: nat, g: nat | EmailAt(s, i, a', e, g) ensures a' == a && e < k {
          assert !IsLocalChar(s[a]) && !IsLocalChar(s[a']);
          RunEndCovers(s, a + 1, IsDomainChar, e + 1);
        }
      }
      match DotSearch(s, a, k)
      case None => None
      case Some((e, g)) => Some(EmailSpan(a, e, g))
  }

  /** The leftmost start at or after i where the email pattern matches, with its match. */
  function EmailSearch(s: string, i: nat): (r: Option<(nat, EmailSpan)>)
    requires i <= |s|
    ensures r.Some? ==> i <= r.value.0 <= |s| && EmailMatchAt(s, r.value.0) == Some(r.value.1)
    ensures r.Some? ==> forall j: nat, a: nat, e: nat, g: nat :: i <= j < r.value.0 ==> !EmailAt(s, j, a, e, g)
    ensures r.None? ==> forall j: nat, a: nat, e: nat, g: nat :: i <= j ==> !EmailAt(s, j, a, e, g)
    decreases |s| - i
  {
    match EmailMatchAt(s, i)
    case Some(m) => Some((i, m))
    case None =>
      if i == |s| then None else EmailSearch(s, i + 1)
  }

  /**
   * The match Python's re.search (and the first element of re.findall) gives
   * for the email pattern: the leftmost start, and at that start the match
   * with the last '\.' and then the longest end.
   */
  function FirstEmail(s: string): (r: Option<(nat, EmailSpan)>)
    ensures r.None? <==> forall i: nat, a: nat, e: nat, g: nat :: !EmailAt(s, i, a, e, g)
    ensures r.Some? ==> EmailAt(s, r.value.0, r.value.1.at, r.value.1.dot, r.value.1.end)
    ensures r.Some? ==> forall j: nat, a: nat, e: nat, g: nat :: j < r.value.0 ==> !EmailAt(s, j, a, e, g)
    ensures r.Some? ==> forall a: nat, e: nat, g: nat :: EmailAt(s, r.value.0, a, e, g) ==>
      a == r.value.1.at && (e < r.value.1.dot || (e == r.value.1.dot && g <= r.value.1.end))
  {
    EmailSearch(s, 0)
  }

  // ---------------------------------------------------------------------
  // (\+\d{1,3}[-.]?)?\b\d{3}[-.]?\d{3}[-.]?\d{4}\b
  // ---------------------------------------------------------------------

  predicate IsPhoneSep(c: char) { c == '-' || c == '.' }

  /** n ASCII digits start at p. */
  predicate DigitsAt(s: string, p: nat, n: nat) {
    p + n <= |s| && forall k: nat :: p <= k < p + n ==> IsAsciiDigit(s[k])
  }

  /**
   * `[-.]?` at q when a digit must follow: the separator is taken when it is
   * there, since leaving it out would put a non-digit where \d must match.
   */
  function SkipSep(s: string, q: nat): nat
    requires q <= |s|
  {
    if q < |s| && IsPhoneSep(s[q]) then q + 1 else q
  }

  /** One of the two ways `[-.]?` can step from q to q'. */
  predicate SepStep(s: string, q: nat, q': nat) {
    q' == q || (q' == q + 1 && q < |s| && IsPhoneSep(s[q]))
  }

  /** `\b\d{3}[-.]?\d{3}[-.]?\d{4}\b` matches s[p..t + 4] with its digit groups at p, q and t. */
  predicate PhoneCoreShape(s: string, p: nat, q: nat, t: nat) {
    p <= |s| && Boundary(s, p) && DigitsAt(s, p, 3)
    && SepStep(s, p + 3, q) && DigitsAt(s, q, 3)
    && SepStep(s, q + 3, t) && DigitsAt(s, t, 4)
    && Boundary(s, t + 4)
  }

  /** The core of the phone pattern at p: where its groups are, if it matches. */
  function PhoneCoreAt(s: string, p: nat): (r: Option<(nat, nat)>)
    requires p <= |s|
    ensures r.Some? ==> PhoneCoreShape(s, p, r.value.0, r.value.1)
    ensures forall q: nat, t: nat :: PhoneCoreShape(s, p, q, t) ==> r == Some((q, t))
  {
    if !Boundary(s, p) || !DigitsAt(s, p, 3) then None
    else
      var q := SkipSep(s, p + 3);
      if !DigitsAt(s, q, 3) then None
      else
        var t := SkipSep(s, q + 3);
        if !DigitsAt(s, t, 4) || !Boundary(s, t + 4) then None
        else Some((q, t))
  }

  /** Where a phone match has its three digit groups (at p, q, t) and its end. */
  datatype PhoneSpan = PhoneSpan(p: nat, q: nat, t: nat, end: nat)

  /** The optional group `\+\d{1,3}[-.]?` taken at i with n, n - 1, ..., 1 digits. */
  function PrefixedPhoneAt(s: string, i: nat, n: nat): (r: Option<PhoneSpan>)
    requires i < |s| && s[i] == '+' && DigitsAt(s, i + 1, n)
    ensures r.Some? ==>
      (PhoneCoreShape(s, r.value.p, r.value.q, r.value.t)
      && i + 2 <= r.value.p && r.value.end == r.value.t + 4)
    decreases n
  {
    if n == 0 then None
    else
      match PhoneCoreAt(s, SkipSep(s, i + 1 + n))
      case Some((q, t)) => Some(PhoneSpan(SkipSep(s, i + 1 + n), q, t, t + 4))
      case None => PrefixedPhoneAt(s, i, n - 1)
  }

  /** The phone pattern tried at start i: with the optional group first, then without it. */
  function PhoneMatchAt(s: string, i: nat): (r: Option<PhoneSpan>)
    requires i <= |s|
    ensures r.Some? ==>
      (PhoneCoreShape(s, r.value.p, r.value.q, r.value.t)
      && i <= r.value.p && r.value.end == r.value.t + 4)
    ensures r.None? ==> PhoneCoreAt(s, i).None?
  {
    var grouped :=
      if i < |s| && s[i] == '+' then
        PrefixedPhoneAt(s, i, Min(3, RunEnd(s, i + 1, IsAsciiDigit) - (i + 1)))
      else None;
    if grouped.Some? then grouped
    else
      match PhoneCoreAt(s, i)
      case Some((q, t)) => Some(PhoneSpan(i, q, t, t + 4))
      case None => None
  }

  /** re.search of the phone pattern from i on: the leftmost start and its match. */
  function PhoneSearch(s: string, i: nat): (r: Option<(nat, PhoneSpan)>)
    requires i <= |s|
    ensures r.Some? ==> i <= r.value.0 <= |s| && PhoneMatchAt(s, r.value.0) == Some(r.value.1)
    ensures r.Some? ==> forall j: nat :: i <= j < r.value.0 ==> PhoneMatchAt(s, j).None?
    ensures r.None? ==> forall p: nat, q: nat, t: nat :: i <= p ==> !PhoneCoreShape(s, p, q, t)
    decreases |s| - i
  {
    match PhoneMatchAt(s, i)
    case Some(m) => Some((i, m))
    case None =>
      if i == |s| then None
      else
        var r := PhoneSearch(s, i + 1);
        assert r.Some? ==> forall j: nat :: i <= j < r.value.0 ==> PhoneMatchAt(s, j).None? by {
          if r.Some? {
            forall j: nat | i <= j < r.value.0 ensures PhoneMatchAt(s, j).None? {
              if j > i { assert i + 1 <= j; }
            }
          }
        }
        assert r.None? ==> forall p: nat, q: nat, t: nat :: i <= p ==> !PhoneCoreShape(s, p, q, t) by {
          if r.None? {
            forall p: nat, q: nat, t: nat | i <= p ensures !PhoneCoreShape(s, p, q, t) {
              if p > i { assert i + 1 <= p; }
            }
          }
        }
        r
  }

  /** Number of ASCII digits in s. */
  function CountDigits(s: string): nat
  {
    if s == [] then 0
    else CountDigits(s[..|s| - 1]) + (if IsAsciiDigit(s[|s| - 1]) then 1 else 0)
  }

  lemma {:induction false} CountDigitsSplit(s: string, a: nat, b: nat, c: nat)
    requires a <= b <= c <= |s|
    ensures CountDigits(s[a..c]) == CountDigits(s[a..b]) + CountDigits(s[b..c])
    decreases c - b
  {
    if b < c {
      CountDigitsSplit(s, a, b, c - 1);
      assert s[a..c][..c - a - 1] == s[a..c - 1];
      assert s[b..c][..c - b - 1] == s[b..c - 1];
    } else {
      assert s[b..c] == [];
    }
  }

  lemma {:induction false} CountDigitsRun(s: string, p: nat, n: nat)
    requires DigitsAt(s, p, n)
    ensures CountDigits(s[p..p + n]) == n
    decreases n
  {
    if n > 0 {
      CountDigitsRun(s, p, n - 1);
      assert s[p..p + n][..n - 1] == s[p..p + n - 1];
    } else {
      assert s[p..p] == [];
    }
  }

  /** The three digit groups of a phone match hold ten digits between them. */
  lemma PhoneMatchDigits(s: string, i: nat, m: PhoneSpan)
    requires i <= m.p && PhoneCoreShape(s, m.p, m.q, m.t) && m.end == m.t + 4
    ensures CountDigits(s[i..m.end]) >= 10
  {
    CountDigitsSplit(s, i, m.p, m.end);
    CountDigitsSplit(s, m.p, m.p + 3, m.end);
    CountDigitsSplit(s, m.p + 3, m.q, m.end);
    CountDigitsSplit(s, m.q, m.q + 3, m.end);
    CountDigitsSplit(s, m.q + 3, m.t, m.end);
    CountDigitsRun(s, m.p, 3);
    CountDigitsRun(s, m.q, 3);
    CountDigitsRun(s, m.t, 4);
  }

  /** A piece of s holds no more digits than s does. */
  lemma CountDigitsSlice(s: string, i: nat, j: nat)
    requires i <= j <= |s|
    ensures CountDigits(s[i..j]) <= CountDigits(s)
  {
    CountDigitsSplit(s, 0, i, |s|);
    CountDigitsSplit(s, i, j, |s|);
    assert s[0..|s|] == s;
  }

  // ---------------------------------------------------------------------
  // (\+84|0)[0-9]{9,10}
  // ---------------------------------------------------------------------

  /** `(\+84|0)[0-9]{9,10}` matches s[i..end] with a group of length g. */
  predicate VnPhoneAt(s: string, i: nat, g: nat, end: nat) {
    ((g == 3 && OccursAt(s, "+84", i)) || (g == 1 && i < |s| && s[i] == '0'))
    && i + g + 9 <= end <= i + g + 10 && DigitsAt(s, i + g, end - i - g)
  }

  /** The Vietnamese phone pattern tried at i: group length and end of the longest match. */
  function VnPhoneMatchAt(s: string, i: nat): (r: Option<(nat, nat)>)
    requires i <= |s|
    ensures r.Some? ==> VnPhoneAt(s, i, r.value.0, r.value.1)
    ensures forall g: nat, end: nat :: VnPhoneAt(s, i, g, end) ==> r.Some? && g == r.value.0 && end <= r.value.1
  {
    var g := if OccursAt(s, "+84", i) then 3 else if i < |s| && s[i] == '0' then 1 else 0;
    if g == 0 then None
    else
      var run := RunEnd(s, i + g, IsAsciiDigit) - (i + g);
      assert forall g': nat, end: nat :: VnPhoneAt(s, i, g', end) ==> g' == g && end - i - g <= run by {
        forall g': nat, end: nat | VnPhoneAt(s, i, g', end) ensures g' == g && end - i - g <= run {
          if OccursAt(s, "+84", i) { assert s[i] == "+84"[0]; }
          if g' == g { RunEndCovers(s, i + g, IsAsciiDigit, end); }
        }
      }
      if run < 9 then None else Some((g, i + g + Min(run, 10)))
  }

  /** The first match of the Vietnamese phone pattern from i on (re.findall's first element). */
  function VnPhoneSearch(s: string, i: nat): (r: Option<(nat, nat, nat)>)
    requires i <= |s|
    ensures r.Some? ==> i <= r.value.0 && VnPhoneAt(s, r.value.0, r.value.1, r.value.2)
    ensures r.Some? ==> forall g: nat, end: nat :: VnPhoneAt(s, r.value.0, g, end) ==> end <= r.value.2
    ensures r.Some? ==> forall j: nat, g: nat, end: nat :: i <= j < r.value.0 ==> !VnPhoneAt(s, j, g, end)
    ensures r.None? ==> forall j: nat, g: nat, end: nat :: i <= j ==> !VnPhoneAt(s, j, g, end)
    decreases |s| - i
  {
    match VnPhoneMatchAt(s, i)
    case Some((g, end)) => Some((i, g, end))
    case None =>
      if i == |s| then None else VnPhoneSearch(s, i + 1)
  }

  // ---------------------------------------------------------------------
  // r'\b' + re.escape(skill) + r'\b' with re.IGNORECASE
  // ---------------------------------------------------------------------

  /** s[i..i + |w|] equals w ignoring case. */
  predicate CaseEqAt(s: string, w: string, i: nat) {
    i + |w| <= |s| && Lower(s[i..i + |w|]) == Lower(w)
  }

  /** As written: `\b` + w + `\b` matches at i. */
  predicate WordAtAsWritten(s: string, w: string, i: nat) {
    CaseEqAt(s, w, i) && Boundary(s, i) && Boundary(s, i + |w|)
  }

  /** As intended: w occurs at i with no word character right before or right after it. */
  predicate StandaloneAt(s: string, w: string, i: nat) {
    CaseEqAt(s, w, i)
    && !(i > 0 && IsWordChar(s[i - 1]))
    && !(i + |w| < |s| && IsWordChar(s[i + |w|]))
  }

  /** re.search(r'\b' + re.escape(w) + r'\b', s[i..], re.IGNORECASE) finds something. */
  function MentionedAsWrittenFrom(s: string, w: string, i: nat): (r: bool)
    requires i <= |s|
    ensures r <==> exists j: nat :: i <= j && WordAtAsWritten(s, w, j)
    decreases |s| - i
  {
    if WordAtAsWritten(s, w, i) then true
    else if i == |s| then false
    else MentionedAsWrittenFrom(s, w, i + 1)
  }

  /** w occurs in s[i..] as a standalone term. */
  function MentionedFrom(s: string, w: string, i: nat): (r: bool)
    requires i <= |s|
    ensures r <==> exists j: nat :: i <= j && StandaloneAt(s, w, j)
    decreases |s| - i
  {
    if StandaloneAt(s, w, i) then true
    else if i == |s| then false
    else MentionedFrom(s, w, i + 1)
  }

  /**
   * For a term that begins and ends with a word character, the intended
   * matcher and the one as written agree at every position.
   */
  lemma StandaloneAgreesAsWritten(s: string, w: string, i: nat)
    requires w != "" && IsWordChar(w[0]) && IsWordChar(w[|w| - 1])
    requires IsAsciiAlnum(w[0]) && IsAsciiAlnum(w[|w| - 1])
    ensures StandaloneAt(s, w, i) <==> WordAtAsWritten(s, w, i)
  {
    if CaseEqAt(s, w, i) {
      var piece := s[i..i + |w|];
      assert Lower(piece)[0] == Lower(w)[0];
      assert Lower(piece)[|w| - 1] == Lower(w)[|w| - 1];
      assert LowerChar(s[i]) == LowerChar(w[0]);
      assert LowerChar(s[i + |w| - 1]) == LowerChar(w[|w| - 1]);
      assert IsWordChar(s[i]) && IsWordChar(s[i + |w| - 1]);
    }
  }

  // ---------------------------------------------------------------------
  // Name:\s*(.*) with re.IGNORECASE
  // ---------------------------------------------------------------------

  /** The leftmost case-insensitive "name:" of line starts at k. */
  predicate FirstLabelAt(line: string, k: nat) {
    k + 5 <= |line| && OccursAt(Lower(line), "name:", k)
    && forall j: nat :: j < k ==> !OccursAt(Lower(line), "name:", j)
  }

  /**
   * `\s*(.*)` matched from i: the greedy `\s*` skips all the whitespace,
   * newlines included, and the group runs up to the next newline.
   */
  function ValueFrom(line: string, i: nat): (v: string)
    requires i <= |line|
    ensures '\n' !in v
    ensures '\n' !in line ==> |v| <= |line| && v == line[|line| - |v|..]
  {
    var rest := TrimStart(line[i..]);
    if '\n' !in line then
      assert rest == line[|line| - |rest|..];
      assert forall c :: c in rest ==> c in line;
      SplitWithoutSep(rest, '\n');
      Split(rest, '\n')[0]
    else
      Split(rest, '\n')[0]
  }

  /**
   * re.search(r'Name:\s*(.*)', line, re.IGNORECASE).group(1), or None: the
   * value after the leftmost case-insensitive "name:".
   */
  function NameLabelValue(line: string): (r: Option<string>)
    ensures r.None? <==> !Contains(Lower(line), "name:")
    ensures r.Some? ==> exists k: nat :: FirstLabelAt(line, k) && r.value == ValueFrom(line, k + 5)
  {
    var found := FindFrom(Lower(line), "name:", 0);
    LabelSearch(line, found);
    match found
    case None => None
    case Some(k) => Some(ValueFrom(line, k + 5))
  }

  /** The search for "name:" finds the leftmost label, and finds one exactly when the line holds one. */
  lemma LabelSearch(line: string, found: Option<nat>)
    requires found == FindFrom(Lower(line), "name:", 0)
    ensures found.None? <==> !Contains(Lower(line), "name:")
    ensures found.Some? ==> FirstLabelAt(line, found.value)
  {
  }
}

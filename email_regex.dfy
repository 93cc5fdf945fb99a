/** The email pattern `UserManager.email_regex` and what `re.fullmatch`
    against it accepts.

    The pattern is
        ([A-Za-z0-9]+[.-_])*[A-Za-z0-9]+@[A-Za-z0-9-]+(\.[A-Z|a-z]{2,})+
    and FullMatch below is built from it piece by piece: every group, star,
    plus and character class of the pattern is one predicate. Two of its
    classes are taken literally, as a regular-expression engine reads them:
    `[.-_]` is the RANGE from '.' to '_' (which holds '/', the digits, ':',
    '@', the upper-case letters and more), and `[A-Z|a-z]` holds the bar '|'.

    EmailShape is an independent, character-by-character description of the
    same language, and FullMatchIffShape proves the two equal. The example
    lemmas at the end are derived from it. */
module EmailRegex {

  // ---------------------------------------------------------------------
  // Character classes of the pattern
  // ---------------------------------------------------------------------

  /** `[A-Za-z0-9]` */
  predicate IsAlnum(c: char) {
    'A' <= c <= 'Z' || 'a' <= c <= 'z' || '0' <= c <= '9'
  }

  /** `[.-_]`: every character from '.' (0x2E) to '_' (0x5F). */
  predicate InSeparatorRange(c: char) {
    '.' <= c <= '_'
  }

  /** `[A-Za-z0-9-]` */
  predicate IsLabelChar(c: char) {
    IsAlnum(c) || c == '-'
  }

  /** `[A-Z|a-z]`: the letters and the bar '|'. */
  predicate IsSegmentChar(c: char) {
    'A' <= c <= 'Z' || c == '|' || 'a' <= c <= 'z'
  }

  // ---------------------------------------------------------------------
  // The pattern, one construct at a time
  // ---------------------------------------------------------------------

  /** `[A-Za-z0-9]+` */
  predicate AlnumRun(s: string) {
    |s| > 0 && forall i | 0 <= i < |s| :: IsAlnum(s[i])
  }

  /** `([A-Za-z0-9]+[.-_])*` */
  predicate Groups(s: string)
    decreases |s|
  {
    s == [] ||
    exists j | 0 < j < |s| ::
      AlnumRun(s[..j]) && InSeparatorRange(s[j]) && Groups(s[j + 1..])
  }

  /** `([A-Za-z0-9]+[.-_])*[A-Za-z0-9]+`: the part before the '@'. */
  predicate LocalPart(s: string) {
    exists k | 0 <= k < |s| :: Groups(s[..k]) && AlnumRun(s[k..])
  }

  /** `[A-Za-z0-9-]+`: the single domain label after the '@'. */
  predicate DomainLabel(s: string) {
    |s| > 0 && forall i | 0 <= i < |s| :: IsLabelChar(s[i])
  }

  /** `\.[A-Z|a-z]{2,}` */
  predicate DotSegment(s: string) {
    |s| >= 3 && s[0] == '.' && forall i | 1 <= i < |s| :: IsSegmentChar(s[i])
  }

  /** `(\.[A-Z|a-z]{2,})+` */
  predicate DotSegments(s: string)
    decreases |s|
  {
    exists j | 3 <= j <= |s| ::
      DotSegment(s[..j]) && (j == |s| || DotSegments(s[j..]))
  }

  /** `re.fullmatch(email_regex, s)` succeeds. */
  predicate FullMatch(s: string) {
    exists at, dot | 0 <= at < dot < |s| ::
      && LocalPart(s[..at])
      && s[at] == '@'
      && DomainLabel(s[at + 1..dot])
      && DotSegments(s[dot..])
  }

  // ---------------------------------------------------------------------
  // An independent description of the same language
  // ---------------------------------------------------------------------

  predicate IsLocalChar(c: char) {
    IsAlnum(c) || InSeparatorRange(c)
  }

  /** A character of `[.-_]` that cannot also start an alphanumeric run. */
  predicate IsBareSeparator(c: char) {
    InSeparatorRange(c) && !IsAlnum(c)
  }

  /** Every character may appear in a local part, the first is not a bare
      separator, and every bare separator comes right after an alphanumeric
      character. */
  predicate WellSeparated(s: string) {
    && (forall i | 0 <= i < |s| :: IsLocalChar(s[i]))
    && (|s| > 0 ==> !IsBareSeparator(s[0]))
    && (forall i | 0 < i < |s| :: IsBareSeparator(s[i]) ==> IsAlnum(s[i - 1]))
  }

  predicate LocalShape(s: string) {
    |s| > 0 && WellSeparated(s) && IsAlnum(s[|s| - 1])
  }

  /** Starts with '.', holds only dots and segment characters, and every dot
      is followed by at least two segment characters: the last dot is two
      or more places before the end, and two dots are three or more apart. */
  predicate SegmentsShape(u: string) {
    && |u| >= 3
    && u[0] == '.'
    && (forall i | 0 <= i < |u| :: u[i] == '.' || IsSegmentChar(u[i]))
    && (forall i | 0 <= i < |u| && u[i] == '.' :: i + 2 < |u|)
    && (forall i, j | 0 <= i < j < |u| && u[i] == '.' && u[j] == '.' :: i + 3 <= j)
  }

  /** Index of the last occurrence of c in s, or -1. */
  function LastIndexOf(s: string, c: char): (r: int)
    ensures -1 <= r < |s|
    ensures r >= 0 ==> s[r] == c
    ensures forall i | r < i < |s| :: s[i] != c
    decreases |s|
  {
    if s == [] then -1
    else if s[|s| - 1] == c then |s| - 1
    else LastIndexOf(s[..|s| - 1], c)
  }

  /** Index of the first occurrence of c in s, or -1. */
  function FirstIndexOf(s: string, c: char): (r: int)
    ensures -1 <= r < |s|
    ensures r >= 0 ==> s[r] == c
    ensures forall i | 0 <= i < |s| && (r < 0 || i < r) :: s[i] != c
    decreases |s|
  {
    if s == [] then -1
    else if s[0] == c then 0
    else
      var r := FirstIndexOf(s[1..], c);
      if r < 0 then -1 else r + 1
  }

  /** Index of the first bare separator in s, or |s|. */
  function FirstBareSeparator(s: string): (r: nat)
    ensures r <= |s|
    ensures r < |s| ==> IsBareSeparator(s[r])
    ensures forall i | 0 <= i < r :: !IsBareSeparator(s[i])
    decreases |s|
  {
    if s == [] || IsBareSeparator(s[0]) then 0
    else FirstBareSeparator(s[1..]) + 1
  }

  /** The position just after the last bare separator in s, or 0. */
  function AfterLastBareSeparator(s: string): (k: nat)
    ensures k <= |s|
    ensures k > 0 ==> IsBareSeparator(s[k - 1])
    ensures forall i | k <= i < |s| :: !IsBareSeparator(s[i])
    decreases |s|
  {
    if s == [] then 0
    else if IsBareSeparator(s[|s| - 1]) then |s|
    else AfterLastBareSeparator(s[..|s| - 1])
  }

  predicate DomainShape(t: string) {
    var d := FirstIndexOf(t, '.');
    d > 0 && DomainLabel(t[..d]) && SegmentsShape(t[d..])
  }

  /** The address splits at its LAST '@' into a local part and a domain. */
  predicate EmailShape(s: string) {
    var at := LastIndexOf(s, '@');
    at >= 0 && LocalShape(s[..at]) && DomainShape(s[at + 1..])
  }



  // ---------------------------------------------------------------------
  // Facts about the shape predicates
  // ---------------------------------------------------------------------

  lemma WellSeparatedConcat(a: string, b: string)
    requires WellSeparated(a) && WellSeparated(b)
    ensures WellSeparated(a + b)
  {
    var ab := a + b;
    forall i | 0 <= i < |ab| ensures IsLocalChar(ab[i]) {
      if i < |a| {
        assert ab[i] == a[i];
      } else {
        assert ab[i] == b[i - |a|];
      }
    }
    if |ab| > 0 {
      if |a| > 0 {
        assert ab[0] == a[0];
      } else {
        assert ab[0] == b[0];
      }
    }
    forall i | 0 < i < |ab| ensures IsBareSeparator(ab[i]) ==> IsAlnum(ab[i - 1]) {
      if i < |a| {
        assert ab[i] == a[i] && ab[i - 1] == a[i - 1];
      } else if i == |a| {
        assert ab[i] == b[0];
      } else {
        assert ab[i] == b[i - |a|] && ab[i - 1] == b[i - |a| - 1];
      }
    }
  }

  lemma WellSeparatedSlice(s: string, lo: nat, hi: nat)
    requires WellSeparated(s) && lo <= hi <= |s|
    requires lo < hi ==> !IsBareSeparator(s[lo])
    ensures WellSeparated(s[lo..hi])
  {
    var t := s[lo..hi];
    forall i | 0 <= i < |t| ensures IsLocalChar(t[i]) {
      assert t[i] == s[lo + i];
    }
    forall i | 0 < i < |t| ensures IsBareSeparator(t[i]) ==> IsAlnum(t[i - 1]) {
      assert t[i] == s[lo + i] && t[i - 1] == s[lo + i - 1];
    }
  }

  lemma SegmentsShapeSuffix(u: string, j: nat)
    requires SegmentsShape(u) && j < |u| && u[j] == '.'
    ensures SegmentsShape(u[j..])
  {
    var rest := u[j..];
    assert rest[0] == u[j];
    forall i | 0 <= i < |rest| ensures rest[i] == '.' || IsSegmentChar(rest[i]) {
      assert rest[i] == u[j + i];
    }
    forall i | 0 <= i < |rest| && rest[i] == '.' ensures i + 2 < |rest| {
      assert rest[i] == u[j + i];
    }
    forall i, k | 0 <= i < k < |rest| && rest[i] == '.' && rest[k] == '.' ensures i + 3 <= k {
      assert rest[i] == u[j + i] && rest[k] == u[j + k];
    }
  }

  // ---------------------------------------------------------------------
  // The two descriptions agree
  // ---------------------------------------------------------------------

  /** One group `[A-Za-z0-9]+[.-_]` is well separated. */
  lemma GroupWellSeparated(run: string, c: char)
    requires AlnumRun(run) && InSeparatorRange(c)
    ensures WellSeparated(run + [c])
  {
    var head := run + [c];
    forall i | 0 <= i < |head| ensures IsLocalChar(head[i]) {
      if i < |run| {
        assert head[i] == run[i];
      }
    }
    assert head[0] == run[0];
    forall i | 0 < i < |head| ensures IsBareSeparator(head[i]) ==> IsAlnum(head[i - 1]) {
      assert head[i - 1] == run[i - 1];
      if i < |run| {
        assert head[i] == run[i];
      }
    }
  }

  /** A group followed by a run of groups that is well separated and ends
      in a separator (or is empty) is such a run itself. */
  lemma GroupThenGroups(g: string, j: nat)
    requires 0 < j < |g| && AlnumRun(g[..j]) && InSeparatorRange(g[j])
    requires var rest := g[j + 1..];
      rest == [] || (WellSeparated(rest) && InSeparatorRange(rest[|rest| - 1]))
    ensures WellSeparated(g) && InSeparatorRange(g[|g| - 1])
  {
    var head, rest := g[..j] + [g[j]], g[j + 1..];
    GroupWellSeparated(g[..j], g[j]);
    assert g == head + rest;
    if rest != [] {
      WellSeparatedConcat(head, rest);
      assert g[|g| - 1] == rest[|rest| - 1];
    }
  }

  lemma {:induction false} GroupsSound(g: string)
    requires Groups(g)
    ensures g == [] || (WellSeparated(g) && InSeparatorRange(g[|g| - 1]))
    decreases |g|
  {
    if g != [] {
      var j :| 0 < j < |g| && AlnumRun(g[..j]) && InSeparatorRange(g[j]) && Groups(g[j + 1..]);
      GroupsSound(g[j + 1..]);
      GroupThenGroups(g, j);
    }
  }

  lemma {:induction false} GroupsComplete(g: string)
    requires WellSeparated(g)
    requires g == [] || IsBareSeparator(g[|g| - 1])
    ensures Groups(g)
    decreases |g|
  {
    if g != [] {
      var p := FirstBareSeparator(g);
      assert 0 < p < |g|;
      var run, rest := g[..p], g[p + 1..];
      forall i | 0 <= i < p ensures IsAlnum(run[i]) {
        assert run[i] == g[i];
        assert IsLocalChar(g[i]);
      }
      if p + 1 < |g| {
        assert !IsAlnum(g[p]);
        assert !IsBareSeparator(g[p + 1]);
        WellSeparatedSlice(g, p + 1, |g|);
        assert g[p + 1..|g|] == rest;
        assert rest[|rest| - 1] == g[|g| - 1];
      }
      GroupsComplete(rest);
      assert AlnumRun(g[..p]) && InSeparatorRange(g[p]) && Groups(g[p + 1..]);
    }
  }

  lemma LocalPartSound(s: string)
    requires LocalPart(s)
    ensures LocalShape(s)
  {
    var k :| 0 <= k < |s| && Groups(s[..k]) && AlnumRun(s[k..]);
    var g, r := s[..k], s[k..];
    GroupsSound(g);
    assert r[0] in "0123456789" || !IsBareSeparator(r[0]);
    assert WellSeparated(r);
    if g == [] {
      assert s == r;
    } else {
      WellSeparatedConcat(g, r);
      assert s == g + r;
    }
    assert s[|s| - 1] == r[|r| - 1];
  }

  lemma LocalPartComplete(s: string)
    requires LocalShape(s)
    ensures LocalPart(s)
  {
    var k := AfterLastBareSeparator(s);
    assert k < |s|;
    var g, r := s[..k], s[k..];
    if 0 < k {
      WellSeparatedSlice(s, 0, k);
      assert s[0..k] == g;
      assert g[|g| - 1] == s[k - 1];
    }
    GroupsComplete(g);
    forall i | 0 <= i < |r| ensures IsAlnum(r[i]) {
      assert r[i] == s[k + i];
      assert IsLocalChar(s[k + i]);
    }
    assert Groups(s[..k]) && AlnumRun(s[k..]);
  }

  /** A dot segment followed by nothing, or by a string of segment shape,
      has segment shape. */
  lemma SegmentThenSegments(u: string, j: nat)
    requires 3 <= j <= |u| && DotSegment(u[..j])
    requires j < |u| ==> SegmentsShape(u[j..])
    ensures SegmentsShape(u)
  {
    var seg, rest := u[..j], u[j..];
    forall i | 0 <= i < |u| ensures u[i] == '.' || IsSegmentChar(u[i]) {
      if i < j {
        assert u[i] == seg[i];
      } else {
        assert u[i] == rest[i - j];
      }
    }
    SegmentDotsSpaced(u, j);
    assert u[0] == seg[0];
  }

  lemma SegmentDotsSpaced(u: string, j: nat)
    requires 3 <= j <= |u| && DotSegment(u[..j])
    requires j < |u| ==> SegmentsShape(u[j..])
    ensures forall i | 0 <= i < |u| && u[i] == '.' :: i + 2 < |u|
    ensures forall i, k | 0 <= i < k < |u| && u[i] == '.' && u[k] == '.' :: i + 3 <= k
  {
    var seg, rest := u[..j], u[j..];
    forall i | 0 <= i < |u| && u[i] == '.' ensures i + 2 < |u| {
      if i < j {
        assert u[i] == seg[i];
      } else {
        assert u[i] == rest[i - j];
      }
    }
    forall i, k | 0 <= i < k < |u| && u[i] == '.' && u[k] == '.' ensures i + 3 <= k {
      if k < j {
        assert false;
      } else if i < j {
        assert u[i] == seg[i];
      } else {
        assert u[i] == rest[i - j] && u[k] == rest[k - j];
      }
    }
  }

  lemma {:induction false} SegmentsSound(u: string)
    requires DotSegments(u)
    ensures SegmentsShape(u)
    decreases |u|
  {
    var j :| 3 <= j <= |u| && DotSegment(u[..j]) && (j == |u| || DotSegments(u[j..]));
    if j < |u| {
      SegmentsSound(u[j..]);
    }
    SegmentThenSegments(u, j);
  }

  lemma {:induction false} SegmentsComplete(u: string)
    requires SegmentsShape(u)
    ensures DotSegments(u)
    decreases |u|
  {
    var tail := u[1..];
    var r := FirstIndexOf(tail, '.');
    var j := if r < 0 then |u| else r + 1;
    assert u[1] == tail[0] && u[2] == tail[1];
    assert u[1] != '.' && u[2] != '.';
    assert j >= 3;
    var seg := u[..j];
    forall i | 1 <= i < j ensures IsSegmentChar(seg[i]) {
      assert seg[i] == u[i] == tail[i - 1];
    }
    assert DotSegment(seg);
    if j < |u| {
      assert u[j] == tail[r];
      SegmentsShapeSuffix(u, j);
      SegmentsComplete(u[j..]);
    }
    assert DotSegment(u[..j]) && (j == |u| || DotSegments(u[j..]));
  }

  /** In a match, the '@' before the domain is the last one. */
  lemma MatchedAtIsLast(s: string, at: nat, dot: nat)
    requires at < dot < |s| && s[at] == '@'
    requires DomainLabel(s[at + 1..dot]) && SegmentsShape(s[dot..])
    ensures LastIndexOf(s, '@') == at
  {
    var host, segs := s[at + 1..dot], s[dot..];
    forall i | at < i < |s| ensures s[i] != '@' {
      if i < dot {
        assert s[i] == host[i - at - 1];
      } else {
        assert s[i] == segs[i - dot];
      }
    }
  }

  /** In a match, the domain splits at its first dot into the label and the
      segments. */
  lemma MatchedDomainShape(t: string, d: nat)
    requires d < |t| && DomainLabel(t[..d]) && SegmentsShape(t[d..])
    ensures DomainShape(t)
  {
    forall i | 0 <= i < d ensures t[i] != '.' {
      assert t[i] == t[..d][i];
    }
    assert t[d] == t[d..][0];
    assert FirstIndexOf(t, '.') == d;
  }

  lemma ShapeOfParts(s: string, at: nat, dot: nat)
    requires at < dot < |s|
    requires LocalShape(s[..at]) && s[at] == '@'
    requires DomainLabel(s[at + 1..dot]) && SegmentsShape(s[dot..])
    ensures EmailShape(s)
  {
    MatchedAtIsLast(s, at, dot);
    var t := s[at + 1..];
    var d := dot - at - 1;
    assert t[..d] == s[at + 1..dot];
    assert t[d..] == s[dot..];
    MatchedDomainShape(t, d);
  }

  lemma ShapeOfMatch(s: string, at: nat, dot: nat)
    requires at < dot < |s|
    requires LocalPart(s[..at]) && s[at] == '@'
    requires DomainLabel(s[at + 1..dot]) && DotSegments(s[dot..])
    ensures EmailShape(s)
  {
    SegmentsSound(s[dot..]);
    LocalPartSound(s[..at]);
    ShapeOfParts(s, at, dot);
  }

  lemma MatchOfShape(s: string)
    requires EmailShape(s)
    ensures FullMatch(s)
  {
    var at := LastIndexOf(s, '@');
    var t := s[at + 1..];
    var d := FirstIndexOf(t, '.');
    var dot := at + 1 + d;
    assert t[..d] == s[at + 1..dot];
    assert t[d..] == s[dot..];
    SegmentsComplete(t[d..]);
    LocalPartComplete(s[..at]);
    assert LocalPart(s[..at]) && s[at] == '@' && DomainLabel(s[at + 1..dot]) && DotSegments(s[dot..]);
  }

  /** `re.fullmatch` against the pattern accepts exactly the strings that
      split at their last '@' into a well-separated local part and a single
      label followed by dot segments of two or more letters or bars. */
  lemma FullMatchIffShape(s: string)
    ensures FullMatch(s) <==> EmailShape(s)
  {
    if FullMatch(s) {
      var at, dot :| 0 <= at < dot < |s| && LocalPart(s[..at]) && s[at] == '@'
        && DomainLabel(s[at + 1..dot]) && DotSegments(s[dot..]);
      ShapeOfMatch(s, at, dot);
    }
    if EmailShape(s) {
      MatchOfShape(s);
    }
  }

  // ---------------------------------------------------------------------
  // What the pattern accepts and rejects
  // ---------------------------------------------------------------------

  /** A string with no '@' never matches. */
  lemma NoAtRejected(s: string)
    requires '@' !in s
    ensures !FullMatch(s)
  {
    FullMatchIffShape(s);
    assert LastIndexOf(s, '@') < 0;
  }

  /** A match is at least six characters long and ends in two segment
      characters: a final segment of fewer than two characters, or one that
      ends in a digit, is refused. */
  lemma MatchEndsInTwoSegmentChars(s: string)
    ensures FullMatch(s) ==> |s| >= 6 && IsSegmentChar(s[|s| - 2]) && IsSegmentChar(s[|s| - 1])
  {
    FullMatchIffShape(s);
    if EmailShape(s) {
      var at := LastIndexOf(s, '@');
      var t := s[at + 1..];
      var d := FirstIndexOf(t, '.');
      var u := t[d..];
      assert |s| == at + 1 + d + |u|;
      assert s[|s| - 1] == u[|u| - 1] && s[|s| - 2] == u[|u| - 2];
      assert u[|u| - 1] != '.' && u[|u| - 2] != '.';
    }
  }

  /** After the last '@' there must be a dot: "a@b" is refused. */
  lemma NoDotAfterAtRejected(s: string, at: nat)
    requires at < |s| && s[at] == '@'
    requires forall i | at < i < |s| :: s[i] != '.'
    ensures !FullMatch(s)
  {
    FullMatchIffShape(s);
    var last := LastIndexOf(s, '@');
    assert at <= last;
    var t := s[last + 1..];
    forall i | 0 <= i < |t| ensures t[i] != '.' {
      assert t[i] == s[last + 1 + i];
    }
    assert FirstIndexOf(t, '.') < 0;
  }

  /** A dot after the last '@' is followed only by letters, bars and dots,
      so a digit anywhere in a dot segment is refused. */
  lemma DigitInSegmentRejected(s: string, j: nat, k: nat)
    requires j < k < |s| && s[j] == '.' && '0' <= s[k] <= '9'
    requires forall i | j < i < |s| :: s[i] != '@'
    ensures !FullMatch(s)
  {
    FullMatchIffShape(s);
    DigitInSegmentNoShape(s, j, k);
  }

  lemma DigitInSegmentNoShape(s: string, j: nat, k: nat)
    requires j < k < |s| && s[j] == '.' && '0' <= s[k] <= '9'
    requires forall i | j < i < |s| :: s[i] != '@'
    ensures !EmailShape(s)
  {
    var at := LastIndexOf(s, '@');
    assert at < j;
    if at >= 0 {
      var t := s[at + 1..];
      assert t[j - at - 1] == s[j];
      DigitInDomainNoShape(t, j - at - 1, k - at - 1);
    }
  }

  lemma DigitInDomainNoShape(t: string, j: nat, k: nat)
    requires j < k < |t| && t[j] == '.' && '0' <= t[k] <= '9'
    ensures !DomainShape(t)
  {
    var d := FirstIndexOf(t, '.');
    assert 0 <= d <= j;
    if d > 0 {
      var u := t[d..];
      assert u[k - d] == t[k];
      assert !SegmentsShape(u);
    }
  }

  /** The local part holds no '-': a hyphen anywhere before an '@' is
      refused. */
  lemma HyphenBeforeAtRejected(s: string, i: nat, j: nat)
    requires i < j < |s| && s[i] == '-' && s[j] == '@'
    ensures !FullMatch(s)
  {
    FullMatchIffShape(s);
    var at := LastIndexOf(s, '@');
    assert j <= at;
    assert s[..at][i] == '-';
    assert !IsLocalChar(s[..at][i]);
  }

  /** A group, then a run of groups, is a run of groups. */
  lemma GroupsCons(run: string, sep: char, rest: string)
    requires AlnumRun(run) && InSeparatorRange(sep) && Groups(rest)
    ensures Groups(run + [sep] + rest)
  {
    var g := run + [sep] + rest;
    var j := |run|;
    assert g[..j] == run && g[j] == sep && g[j + 1..] == rest;
  }

  /** Groups then a run make a local part. */
  lemma LocalPartOf(groups: string, run: string)
    requires Groups(groups) && AlnumRun(run)
    ensures LocalPart(groups + run)
  {
    var s := groups + run;
    assert s[..|groups|] == groups && s[|groups|..] == run;
  }

  /** A single dot segment is a run of dot segments. */
  lemma OneSegment(seg: string)
    requires DotSegment(seg)
    ensures DotSegments(seg)
  {
    assert seg[..|seg|] == seg;
  }

  /** Local part, '@', label and segments make a match. */
  lemma MatchOfParts(local: string, host: string, segs: string)
    requires LocalPart(local) && DomainLabel(host) && DotSegments(segs)
    ensures FullMatch(local + "@" + host + segs)
  {
    var s := local + "@" + host + segs;
    var at, dot := |local|, |local| + 1 + |host|;
    assert s[..at] == local && s[at] == '@';
    assert s[at + 1..dot] == host && s[dot..] == segs;
  }

  lemma SampleRuns()
    ensures AlnumRun("laurent") && AlnumRun("gina")
  {
  }

  lemma SampleLocalPart()
    ensures LocalPart("laurent.gina")
  {
    SampleRuns();
    GroupsCons("laurent", '.', "");
    SampleSplits();
    LocalPartOf("laurent.", "gina");
  }

  lemma SampleSplits()
    ensures "laurent" + ['.'] + "" == "laurent."
    ensures "laurent." + "gina" == "laurent.gina"
  {
  }

  lemma SampleDomain()
    ensures DomainLabel("oasis") && DotSegments(".com")
  {
    assert DotSegment(".com");
    OneSegment(".com");
  }

  lemma AcceptsSampleAddress()
    ensures FullMatch("laurent.gina@oasis.com")
  {
    SampleLocalPart();
    SampleDomain();
    MatchOfParts("laurent.gina", "oasis", ".com");
    assert "laurent.gina" + "@" + "oasis" + ".com" == "laurent.gina@oasis.com";
  }

  lemma RejectsSampleAddresses()
    ensures !FullMatch("labodruche du 78")
    ensures !FullMatch("a@b")
    ensures !FullMatch("a@b.c")
    ensures !FullMatch("a@b.c0m")
    ensures !FullMatch("first-last@example.com")
  {
    NoAtRejected("labodruche du 78");
    NoDotAfterAtRejected("a@b", 1);
    MatchEndsInTwoSegmentChars("a@b.c");
    DigitInSegmentRejected("a@b.c0m", 3, 5);
    HyphenBeforeAtRejected("first-last@example.com", 5, 10);
  }

  /** Because `[.-_]` runs from '.' to '_', it holds '@' itself: an address
      with two '@' is accepted, the first one taken as a separator of the
      local part. */
  lemma AcceptsDoubleAt()
    ensures FullMatch("a@b@c.com")
  {
    DoubleAtLocalPart();
    assert DotSegment(".com");
    OneSegment(".com");
    MatchOfParts("a@b", "c", ".com");
    assert "a@b" + "@" + "c" + ".com" == "a@b@c.com";
  }

  /** "a@b" is a local part: a group "a@" and the run "b". */
  lemma DoubleAtLocalPart()
    ensures LocalPart("a@b")
  {
    assert AlnumRun("a") && InSeparatorRange('@') && Groups("");
    GroupsCons("a", '@', "");
    assert "a" + ['@'] + "" == "a@";
    assert AlnumRun("b");
    LocalPartOf("a@", "b");
    assert "a@" + "b" == "a@b";
  }

  /** Because `[A-Z|a-z]` holds '|', a bar in a dot segment is accepted. */
  lemma AcceptsBarInSegment()
    ensures FullMatch("a@b.c|")
  {
    assert Groups("") && AlnumRun("a");
    LocalPartOf("", "a");
    assert "" + "a" == "a";
    assert DotSegment(".c|");
    OneSegment(".c|");
    MatchOfParts("a", "b", ".c|");
    assert "a" + "@" + "b" + ".c|" == "a@b.c|";
  }
}

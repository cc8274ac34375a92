/**
  The transform string written by `applyTransform` and read back by an image's
  click handler with the regular expression
  rotate\((-?\d+)deg\) scale\(([\d.]+)\)
  (no flags: `\d` is ASCII 0-9, the search is unanchored, the leftmost match wins).
*/
module Transform {
  import opened Options

  predicate IsDigit(c: char) { '0' <= c <= '9' }

  /** The two character classes of the pattern: `\d` and `[\d.]`. */
  datatype CharClass = Digits | DigitsOrDots

  predicate InClass(c: char, k: CharClass) {
    IsDigit(c) || (k == DigitsOrDots && c == '.')
  }

  predicate AllIn(s: string, k: CharClass) {
    forall i :: 0 <= i < |s| ==> InClass(s[i], k)
  }

  /** Text matched by `\d+`. */
  predicate IsNatText(s: string) { |s| > 0 && AllIn(s, Digits) }

  /** Text matched by `-?\d+`. */
  predicate IsIntText(s: string) {
    IsNatText(s) || (|s| > 1 && s[0] == '-' && IsNatText(s[1..]))
  }

  /** Text matched by `[\d.]+`: what the scale control holds. */
  predicate IsScaleText(s: string) { |s| > 0 && AllIn(s, DigitsOrDots) }

  type ScaleText = s: string | IsScaleText(s) witness "1"

  function DigitValue(c: char): nat
    requires IsDigit(c)
  {
    c as int - '0' as int
  }

  function DigitChar(d: nat): (c: char)
    requires d < 10
    ensures IsDigit(c) && DigitValue(c) == d
  {
    ('0' as int + d) as char
  }

  /** The decimal value of a digit string. */
  function NatValue(s: string): nat
    requires AllIn(s, Digits)
    decreases |s|
  {
    if s == [] then 0 else 10 * NatValue(s[..|s| - 1]) + DigitValue(s[|s| - 1])
  }

  /** Canonical decimal text of a natural number (no leading zeros). */
  function NatText(n: nat): (t: string)
    ensures IsNatText(t) && NatValue(t) == n
    decreases n
  {
    if n < 10 then [DigitChar(n)]
    else
      var a := NatText(n / 10);
      var t := a + [DigitChar(n % 10)];
      assert t[..|t| - 1] == a;
      t
  }

  /** The integer an integer text denotes. */
  function IntValue(s: string): int
    requires IsIntText(s)
  {
    if s[0] == '-' then -(NatValue(s[1..]) as int) else NatValue(s)
  }

  /** Canonical decimal text of the rotation control's integer value (no "-0"). */
  function IntText(i: int): (t: string)
    ensures IsIntText(t) && IntValue(t) == i
  {
    if i < 0 then
      var t := "-" + NatText(-i);
      assert t[1..] == NatText(-i);
      t
    else NatText(i)
  }

  /** Length of the longest run of class-`k` characters starting at `p`
      (a greedy `+` or `*` quantifier). */
  function Run(s: string, p: nat, k: CharClass): (n: nat)
    requires p <= |s|
    ensures p + n <= |s|
    ensures forall j :: p <= j < p + n ==> InClass(s[j], k)
    ensures p + n == |s| || !InClass(s[p + n], k)
    decreases |s| - p
  {
    if p < |s| && InClass(s[p], k) then 1 + Run(s, p + 1, k) else 0
  }

  /** A run is determined by where it stops. */
  lemma RunIs(s: string, p: nat, k: CharClass, n: nat)
    requires p + n <= |s|
    requires forall j :: p <= j < p + n ==> InClass(s[j], k)
    requires p + n == |s| || !InClass(s[p + n], k)
    ensures Run(s, p, k) == n
  {
  }

  predicate LiteralAt(s: string, p: nat, lit: string) {
    p + |lit| <= |s| && s[p..p + |lit|] == lit
  }

  const Prefix: string := "rotate("
  const Middle: string := "deg) scale("
  const Suffix: string := ")"

  /** The two capture groups of a match. */
  datatype Captures = Captures(rotation: string, scale: string)

  /** The whole text a match covers. */
  function Matched(c: Captures): string {
    Prefix + c.rotation + Middle + c.scale + Suffix
  }

  /** The pattern anchored at position `p`. Backtracking never helps here: a
      shorter digit run is followed by a digit where "deg" or ")" is needed, and
      skipping an optional "-" leaves "-" where `\d` is needed, so the greedy
      choices are the only ones that can succeed. */
  function MatchAt(s: string, p: nat): (m: Option<Captures>)
    requires p <= |s|
    ensures m.Some? ==> IsIntText(m.value.rotation) && IsScaleText(m.value.scale)
    ensures m.Some? ==> LiteralAt(s, p, Matched(m.value))
  {
    if !LiteralAt(s, p, Prefix) then None else RotationGroup(s, p)
  }

  /** Where the digits of the rotation group start: after an optional "-". */
  function DigitsStart(s: string, r0: nat): (d0: nat)
    ensures d0 == r0 || (d0 == r0 + 1 && r0 < |s| && s[r0] == '-')
    ensures d0 == r0 + 1 <==> (r0 < |s| && s[r0] == '-')
  {
    if r0 < |s| && s[r0] == '-' then r0 + 1 else r0
  }

  /** After "rotate(": the group `-?\d+`, then "deg) scale(". */
  function RotationGroup(s: string, p: nat): (m: Option<Captures>)
    requires LiteralAt(s, p, Prefix)
    ensures m.Some? ==> IsIntText(m.value.rotation) && IsScaleText(m.value.scale)
    ensures m.Some? ==> LiteralAt(s, p, Matched(m.value))
  {
    var r0 := p + |Prefix|;
    var d0 := DigitsStart(s, r0);
    var m0 := d0 + Run(s, d0, Digits);
    if m0 == d0 || !LiteralAt(s, m0, Middle) then None
    else
      var rot := s[r0..m0];
      assert d0 == r0 + 1 ==> rot[0] == '-' && rot[1..] == s[d0..m0];
      ScaleGroup(s, p, m0)
  }

  /** After "deg) scale(": the group `[\d.]+`, then ")". */
  function ScaleGroup(s: string, p: nat, m0: nat): (m: Option<Captures>)
    requires LiteralAt(s, p, Prefix) && p + |Prefix| <= m0
    requires LiteralAt(s, m0, Middle) && IsIntText(s[p + |Prefix|..m0])
    ensures m.Some? ==> IsIntText(m.value.rotation) && IsScaleText(m.value.scale)
    ensures m.Some? ==> LiteralAt(s, p, Matched(m.value))
  {
    var s0 := m0 + |Middle|;
    var ns := Run(s, s0, DigitsOrDots);
    if ns == 0 || !LiteralAt(s, s0 + ns, Suffix) then None
    else
      Glue(s, p, p + |Prefix|, m0, s0, s0 + ns);
      Some(Captures(s[p + |Prefix|..m0], s[s0..s0 + ns]))
  }

  /** Leftmost position at or after `p` where the pattern matches. */
  function Search(s: string, p: nat): (r: Option<nat>)
    requires p <= |s|
    ensures r.Some? ==> p <= r.value <= |s| && MatchAt(s, r.value).Some?
    ensures r.Some? ==> forall q :: p <= q < r.value ==> MatchAt(s, q).None?
    ensures r.None? ==> forall q :: p <= q <= |s| ==> MatchAt(s, q).None?
    decreases |s| - p
  {
    if MatchAt(s, p).Some? then Some(p)
    else if p == |s| then None
    else Search(s, p + 1)
  }

  /** `p` is where the leftmost match starts. */
  predicate Leftmost(s: string, p: nat) {
    p <= |s| && MatchAt(s, p).Some? && forall q :: 0 <= q < p ==> MatchAt(s, q).None?
  }

  /** `RegExp.prototype.exec`: the captures of the leftmost match, if any. */
  function Exec(s: string): (m: Option<Captures>)
    ensures m.Some? ==> IsIntText(m.value.rotation) && IsScaleText(m.value.scale)
    ensures m.None? <==> forall q :: 0 <= q <= |s| ==> MatchAt(s, q).None?
    ensures m.Some? ==> exists p :: 0 <= p <= |s| && MatchAt(s, p) == m &&
                                    forall q :: 0 <= q < p ==> MatchAt(s, q).None?
  {
    match Search(s, 0)
    case Some(p) => MatchAt(s, p)
    case None => None
  }

  /** Adjacent slices concatenate. */
  lemma SliceSplit(s: string, a: nat, b: nat, c: nat)
    requires a <= b <= c <= |s|
    ensures s[a..c] == s[a..b] + s[b..c]
  {
  }

  /** A slice of a literal standing in `s` at `p` is the same slice of `s`. */
  lemma SubSlice(s: string, p: nat, w: string, a: nat, b: nat)
    requires LiteralAt(s, p, w) && a <= b <= |w|
    ensures s[p + a..p + b] == w[a..b]
  {
    forall j | 0 <= j < b - a ensures s[p + a..p + b][j] == w[a..b][j] {
      assert s[p + a + j] == s[p..p + |w|][a + j];
    }
  }

  /** The literals of the pattern around two slices of `s` form one literal. */
  lemma Glue(s: string, p: nat, r0: nat, m0: nat, s0: nat, e: nat)
    requires p == r0 - |Prefix| && r0 <= m0 && s0 == m0 + |Middle| && s0 <= e < |s|
    requires LiteralAt(s, p, Prefix) && LiteralAt(s, m0, Middle) && LiteralAt(s, e, Suffix)
    ensures LiteralAt(s, p, Prefix + s[r0..m0] + Middle + s[s0..e] + Suffix)
  {
    SliceSplit(s, p, r0, m0);
    SliceSplit(s, p, m0, s0);
    SliceSplit(s, p, s0, e);
    SliceSplit(s, p, e, e + 1);
  }

  /** Where the pieces of `Prefix + r + Middle + sc + Suffix` sit when that
      text stands in `s` at `p`. */
  lemma Layout(s: string, p: nat, r: string, sc: string)
    requires LiteralAt(s, p, Prefix + r + Middle + sc + Suffix)
    ensures var r0 := p + |Prefix|;
            var m0 := r0 + |r|;
            var s0 := m0 + |Middle|;
            var e := s0 + |sc|;
            && e < |s|
            && LiteralAt(s, p, Prefix)
            && s[r0..m0] == r
            && LiteralAt(s, m0, Middle)
            && s[s0..e] == sc
            && LiteralAt(s, e, Suffix)
  {
    var lit := Prefix + r + Middle + sc + Suffix;
    var r0 := |Prefix|;
    var m0 := r0 + |r|;
    var s0 := m0 + |Middle|;
    var e := s0 + |sc|;
    assert lit[..r0] == Prefix;
    assert lit[r0..m0] == r;
    assert lit[m0..s0] == Middle;
    assert lit[s0..e] == sc;
    assert lit[e..e + 1] == Suffix;
    SubSlice(s, p, lit, 0, r0);
    SubSlice(s, p, lit, r0, m0);
    SubSlice(s, p, lit, m0, s0);
    SubSlice(s, p, lit, s0, e);
    SubSlice(s, p, lit, e, e + 1);
  }

  /** A run ends exactly where a slice of class-`k` characters is followed by
      a character outside the class. */
  lemma RunOverSlice(t: string, p: nat, q: nat, k: CharClass)
    requires p <= q < |t|
    requires AllIn(t[p..q], k) && !InClass(t[q], k)
    ensures Run(t, p, k) == q - p
  {
    RunIs(t, p, k, q - p);
  }

  /** The converse of `MatchAt`'s contract: wherever `s` holds the literals
      around an integer text and a scale text, the pattern matches there and
      captures exactly those two texts. */
  lemma MatchesLayout(s: string, p: nat, r: string, sc: string)
    requires p <= |s|
    requires IsIntText(r) && IsScaleText(sc)
    requires LiteralAt(s, p, Matched(Captures(r, sc)))
    ensures MatchAt(s, p) == Some(Captures(r, sc))
  {
    var r0 := p + |Prefix|;
    var m0 := r0 + |r|;
    var s0 := m0 + |Middle|;
    var e := s0 + |sc|;
    Layout(s, p, r, sc);
    assert s[m0] == 'd' by { assert s[m0] == s[m0..m0 + |Middle|][0]; }
    assert s[e] == ')' by { assert s[e] == s[e..e + 1][0]; }
    assert s[r0] == r[0];
    var d0 := DigitsStart(s, r0);
    if r[0] == '-' {
      assert s[r0 + 1..m0] == r[1..];
    }
    RunOverSlice(s, d0, m0, Digits);
    RunOverSlice(s, s0, e, DigitsOrDots);
    RotationStep(s, p, m0);
    ScaleStep(s, p, m0, e);
  }

  /** The rotation stage succeeds when the digit run ends at "deg) scale(". */
  lemma RotationStep(s: string, p: nat, m0: nat)
    requires LiteralAt(s, p, Prefix)
    requires DigitsStart(s, p + |Prefix|) < m0 <= |s|
    requires Run(s, DigitsStart(s, p + |Prefix|), Digits) == m0 - DigitsStart(s, p + |Prefix|)
    requires LiteralAt(s, m0, Middle) && IsIntText(s[p + |Prefix|..m0])
    ensures RotationGroup(s, p) == ScaleGroup(s, p, m0)
  {
    var d0 := DigitsStart(s, p + |Prefix|);
    assert m0 != d0 && d0 + Run(s, d0, Digits) == m0;
  }

  /** The scale stage succeeds when the scale run ends at ")". */
  lemma ScaleStep(s: string, p: nat, m0: nat, e: nat)
    requires LiteralAt(s, p, Prefix) && p + |Prefix| <= m0
    requires LiteralAt(s, m0, Middle) && IsIntText(s[p + |Prefix|..m0])
    requires m0 + |Middle| < e <= |s| && Run(s, m0 + |Middle|, DigitsOrDots) == e - (m0 + |Middle|)
    requires LiteralAt(s, e, Suffix)
    ensures ScaleGroup(s, p, m0) == Some(Captures(s[p + |Prefix|..m0], s[m0 + |Middle|..e]))
  {
  }

  /** What `applyTransform` writes: a text the pattern matches right at its
      start, capturing exactly the rotation text and the scale text. */
  function Format(rotation: int, scale: ScaleText): (t: string)
  {
    Prefix + IntText(rotation) + Middle + scale + Suffix
  }

  /** The click-time parse of what `applyTransform` wrote gives back the
      rotation text and the scale text: the leftmost match is the one at 0. */
  lemma FormatRoundTrip(rotation: int, scale: ScaleText)
    ensures Exec(Format(rotation, scale)) == Some(Captures(IntText(rotation), scale))
  {
    var t := Format(rotation, scale);
    assert t[0..|t|] == t;
    MatchesLayout(t, 0, IntText(rotation), scale);
    assert Search(t, 0) == Some(0);
  }

  /** The empty transform (an image that was never rotated or scaled) does not match. */
  lemma EmptyDoesNotMatch()
    ensures Exec("") == None
  {
  }
}

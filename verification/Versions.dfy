/** Version ordering (infra/platform/update.py): the digit groups of a text, compared as
    tuples after padding with zeros. */
module Versions {
  import opened Text

  predicate IsDigit(c: char) {
    '0' <= c <= '9'
  }

  // ----- parsing ----------------------------------------------------------------------------

  /** The length of the digit run at the start. */
  function DigitRun(s: string): (n: nat)
    ensures n <= |s| && (forall i :: 0 <= i < n ==> IsDigit(s[i])) && (n < |s| ==> !IsDigit(s[n]))
  {
    if s == "" || !IsDigit(s[0]) then 0 else 1 + DigitRun(s[1..])
  }

  function ReadNumber(s: string): nat
    requires forall i :: 0 <= i < |s| ==> IsDigit(s[i])
  {
    if s == "" then 0
    else
      assert IsDigit(s[|s| - 1]);
      10 * ReadNumber(s[..|s| - 1]) + (s[|s| - 1] as int - '0' as int)
  }

  /** `re.findall(r"\d+", s)`, each token read as a number. */
  function Tokens(s: string): seq<nat>
    decreases |s|
  {
    if s == "" then []
    else if !IsDigit(s[0]) then Tokens(s[1..])
    else
      var n := DigitRun(s);
      [ReadNumber(s[..n])] + Tokens(s[n..])
  }

  /** `_parse_version` */
  function ParseVersion(s: string): (v: seq<nat>)
    ensures v != []
  {
    if Tokens(s) == [] then [0] else Tokens(s)
  }

  function Number(n: nat): (s: string)
    ensures s != "" && forall i :: 0 <= i < |s| ==> IsDigit(s[i])
  {
    if n < 10 then [('0' as int + n) as char] else Number(n / 10) + [('0' as int + n % 10) as char]
  }

  function Dotted(v: seq<nat>): string {
    if v == [] then "" else if |v| == 1 then Number(v[0]) else Number(v[0]) + "." + Dotted(v[1..])
  }

  lemma {:induction false} NumberReadsBack(n: nat)
    ensures ReadNumber(Number(n)) == n
  {
    if n >= 10 {
      NumberReadsBack(n / 10);
      var s := Number(n);
      assert s[..|s| - 1] == Number(n / 10);
    }
  }

  lemma {:induction false} RunOfDigits(s: string, rest: string)
    requires forall i :: 0 <= i < |s| ==> IsDigit(s[i])
    requires rest == "" || !IsDigit(rest[0])
    ensures DigitRun(s + rest) == |s|
  {
    if s == "" {
      assert s + rest == rest;
    } else {
      assert (s + rest)[1..] == s[1..] + rest;
      RunOfDigits(s[1..], rest);
    }
  }

  lemma LeadingNumber(n: nat, rest: string)
    requires rest == "" || !IsDigit(rest[0])
    ensures Tokens(Number(n) + rest) == [n] + Tokens(rest)
  {
    var s := Number(n);
    RunOfDigits(s, rest);
    NumberReadsBack(n);
    assert (s + rest)[..|s|] == s && (s + rest)[|s|..] == rest;
  }

  lemma {:induction false} TokensOfDotted(v: seq<nat>)
    ensures Tokens(Dotted(v)) == v
  {
    if |v| == 1 {
      LeadingNumber(v[0], "");
      assert Number(v[0]) + "" == Number(v[0]);
    } else if |v| > 1 {
      var rest := "." + Dotted(v[1..]);
      assert Dotted(v) == Number(v[0]) + rest;
      LeadingNumber(v[0], rest);
      assert rest[1..] == Dotted(v[1..]);
      TokensOfDotted(v[1..]);
    }
  }

  /** Parsing the dotted rendering of any non-empty list of naturals recovers the list. */
  lemma ParseInvertsRendering(v: seq<nat>)
    requires v != []
    ensures ParseVersion(Dotted(v)) == v
  {
    TokensOfDotted(v);
  }

  // ----- comparison -----------------------------------------------------------------------------

  /** Python's tuple comparison. */
  predicate TupleGreater(a: seq<nat>, b: seq<nat>) {
    if a == [] then false
    else if b == [] then true
    else if a[0] != b[0] then a[0] > b[0]
    else TupleGreater(a[1..], b[1..])
  }

  function Pad(v: seq<nat>, width: nat): seq<nat> {
    if |v| >= width then v else v + seq(width - |v|, i => 0)
  }

  predicate NewerTokens(a: seq<nat>, b: seq<nat>) {
    var width := if |a| < |b| then |b| else |a|;
    TupleGreater(Pad(a, width), Pad(b, width))
  }

  /** `_is_newer` */
  predicate IsNewer(candidate: string, current: string) {
    NewerTokens(ParseVersion(candidate), ParseVersion(current))
  }

  /** The version read as an infinite list that ends in zeros. */
  function At(v: seq<nat>, k: nat): nat {
    if k < |v| then v[k] else 0
  }

  ghost predicate FirstDifference(a: seq<nat>, b: seq<nat>, k: nat) {
    At(a, k) != At(b, k) && forall j: nat :: j < k ==> At(a, j) == At(b, j)
  }

  /** Lexicographic comparison of the infinitely extended lists. */
  ghost predicate Exceeds(a: seq<nat>, b: seq<nat>) {
    exists k: nat :: FirstDifference(a, b, k) && At(a, k) > At(b, k)
  }

  ghost predicate Equal(a: seq<nat>, b: seq<nat>) {
    forall k: nat :: At(a, k) == At(b, k)
  }

  lemma FirstDifferenceUnique(a: seq<nat>, b: seq<nat>, j: nat, k: nat)
    requires FirstDifference(a, b, j) && FirstDifference(a, b, k)
    ensures j == k
  {
  }

  lemma {:induction false} SameLengthGreater(a: seq<nat>, b: seq<nat>)
    requires |a| == |b|
    ensures TupleGreater(a, b) <==> Exceeds(a, b)
  {
    if a == [] {
    } else if a[0] != b[0] {
      assert FirstDifference(a, b, 0);
      if Exceeds(a, b) {
        var k: nat :| FirstDifference(a, b, k) && At(a, k) > At(b, k);
        FirstDifferenceUnique(a, b, 0, k);
      }
    } else {
      SameLengthGreater(a[1..], b[1..]);
      forall k: nat ensures At(a[1..], k) == At(a, k + 1) && At(b[1..], k) == At(b, k + 1) {}
      if Exceeds(a[1..], b[1..]) {
        var k: nat :| FirstDifference(a[1..], b[1..], k) && At(a[1..], k) > At(b[1..], k);
        ShiftDifference(a, b, k);
      }
      if Exceeds(a, b) {
        var k: nat :| FirstDifference(a, b, k) && At(a, k) > At(b, k);
        assert k > 0 by { assert At(a, 0) == At(b, 0); }
        ShiftDifference(a, b, k - 1);
      }
    }
  }

  lemma ShiftDifference(a: seq<nat>, b: seq<nat>, k: nat)
    requires a != [] && b != [] && a[0] == b[0]
    ensures FirstDifference(a[1..], b[1..], k) <==> FirstDifference(a, b, k + 1)
    ensures At(a[1..], k) == At(a, k + 1) && At(b[1..], k) == At(b, k + 1)
  {
    forall j: nat ensures At(a[1..], j) == At(a, j + 1) && At(b[1..], j) == At(b, j + 1) {}
    if FirstDifference(a[1..], b[1..], k) {
      forall j: nat | j < k + 1 ensures At(a, j) == At(b, j) {
        if j > 0 { assert At(a[1..], j - 1) == At(b[1..], j - 1); }
      }
    }
    if FirstDifference(a, b, k + 1) {
      forall j: nat | j < k ensures At(a[1..], j) == At(b[1..], j) {
        assert At(a, j + 1) == At(b, j + 1);
      }
    }
  }

  lemma PaddingIsInvisible(v: seq<nat>, width: nat)
    ensures forall k: nat :: At(Pad(v, width), k) == At(v, k)
  {
  }

  lemma ExceedsBySameEntries(a: seq<nat>, b: seq<nat>, c: seq<nat>, d: seq<nat>)
    requires Equal(a, c) && Equal(b, d) && Exceeds(a, b)
    ensures Exceeds(c, d)
  {
  }

  /** Comparing after padding to the longer length is comparing the infinite extensions. */
  lemma NewerComparesExtensions(a: seq<nat>, b: seq<nat>)
    ensures NewerTokens(a, b) <==> Exceeds(a, b)
  {
    var width := if |a| < |b| then |b| else |a|;
    var c, d := Pad(a, width), Pad(b, width);
    PaddingIsInvisible(a, width);
    PaddingIsInvisible(b, width);
    SameLengthGreater(c, d);
    assert Equal(a, c) && Equal(b, d) && Equal(c, a) && Equal(d, b);
    if Exceeds(a, b) { ExceedsBySameEntries(a, b, c, d); }
    if Exceeds(c, d) { ExceedsBySameEntries(c, d, a, b); }
  }

  lemma ExceedsTransitive(a: seq<nat>, b: seq<nat>, c: seq<nat>)
    requires Exceeds(a, b) && Exceeds(b, c)
    ensures Exceeds(a, c)
  {
  }

  /** The first place where two extensions differ, searched up to `n`. */
  lemma {:induction false} DifferenceUpTo(a: seq<nat>, b: seq<nat>, n: nat)
    ensures (forall j: nat :: j < n ==> At(a, j) == At(b, j)) || exists k: nat :: k < n && FirstDifference(a, b, k)
  {
    if n > 0 {
      DifferenceUpTo(a, b, n - 1);
      if (forall j: nat :: j < n - 1 ==> At(a, j) == At(b, j)) && At(a, n - 1) != At(b, n - 1) {
        assert FirstDifference(a, b, n - 1);
      }
    }
  }

  /** Of two versions one exceeds the other, unless their extensions are equal. */
  lemma Trichotomy(a: seq<nat>, b: seq<nat>)
    ensures Equal(a, b) || Exceeds(a, b) || Exceeds(b, a)
    ensures !(Exceeds(a, b) && Exceeds(b, a)) && (Equal(a, b) ==> !Exceeds(a, b) && !Exceeds(b, a))
  {
    var n := |a| + |b|;
    DifferenceUpTo(a, b, n);
    if exists k: nat :: k < n && FirstDifference(a, b, k) {
      var k: nat :| k < n && FirstDifference(a, b, k);
      assert FirstDifference(b, a, k);
    } else {
      forall k: nat ensures At(a, k) == At(b, k) {}
    }
    if Exceeds(a, b) && Exceeds(b, a) {
      ExceedsTransitive(a, b, a);
    }
  }

  /** Two texts of which neither is newer denote equal versions. */
  predicate Incomparable(x: string, y: string) {
    !IsNewer(x, y) && !IsNewer(y, x)
  }

  lemma IncomparableMeansEqual(x: string, y: string)
    ensures Incomparable(x, y) <==> Equal(ParseVersion(x), ParseVersion(y))
  {
    NewerComparesExtensions(ParseVersion(x), ParseVersion(y));
    NewerComparesExtensions(ParseVersion(y), ParseVersion(x));
    Trichotomy(ParseVersion(x), ParseVersion(y));
  }

  /** For texts with any number of tokens, `_is_newer` is a strict weak order: irreflexive,
      asymmetric, transitive, with transitive incomparability. */
  lemma NewerIsStrictWeakOrder(x: string, y: string, z: string)
    ensures !IsNewer(x, x)
    ensures !(IsNewer(x, y) && IsNewer(y, x))
    ensures IsNewer(x, y) && IsNewer(y, z) ==> IsNewer(x, z)
    ensures Incomparable(x, y) && Incomparable(y, z) ==> Incomparable(x, z)
  {
    var a, b, c := ParseVersion(x), ParseVersion(y), ParseVersion(z);
    NewerComparesExtensions(a, a);
    NewerComparesExtensions(a, b);
    NewerComparesExtensions(b, a);
    NewerComparesExtensions(b, c);
    NewerComparesExtensions(a, c);
    Trichotomy(a, b);
    if Exceeds(a, b) && Exceeds(b, c) { ExceedsTransitive(a, b, c); }
    IncomparableMeansEqual(x, y);
    IncomparableMeansEqual(y, z);
    IncomparableMeansEqual(x, z);
  }

  /** Trailing zero tokens do not matter, and rendered versions compare as their lists. */
  lemma RenderedVersionsCompare(v: seq<nat>, w: seq<nat>, zeros: nat)
    requires v != [] && w != []
    ensures IsNewer(Dotted(v), Dotted(w)) <==> Exceeds(v, w)
    ensures Incomparable(Dotted(v), Dotted(Pad(v, |v| + zeros)))
  {
    ParseInvertsRendering(v);
    ParseInvertsRendering(w);
    ParseInvertsRendering(Pad(v, |v| + zeros));
    NewerComparesExtensions(v, w);
    PaddingIsInvisible(v, |v| + zeros);
    IncomparableMeansEqual(Dotted(v), Dotted(Pad(v, |v| + zeros)));
  }

  // ----- any text ---------------------------------------------------------------------------

  predicate AllDigits(s: string) {
    forall i :: 0 <= i < |s| ==> IsDigit(s[i])
  }

  predicate NoDigits(s: string) {
    forall i :: 0 <= i < |s| ==> !IsDigit(s[i])
  }

  /** The runs with what stands before, between and after them. */
  function Spelled(runs: seq<string>, between: seq<string>): string
    requires |between| == |runs| + 1
  {
    if runs == [] then between[0] else between[0] + runs[0] + Spelled(runs[1..], between[1..])
  }

  function Numbers(runs: seq<string>): seq<nat>
    requires forall k :: 0 <= k < |runs| ==> AllDigits(runs[k])
  {
    if runs == [] then []
    else
      assert AllDigits(runs[0]);
      [ReadNumber(runs[0])] + Numbers(runs[1..])
  }

  lemma {:induction false} SkipsText(s: string, rest: string)
    requires NoDigits(s)
    ensures Tokens(s + rest) == Tokens(rest)
  {
    if s == "" {
      assert s + rest == rest;
    } else {
      assert (s + rest)[1..] == s[1..] + rest;
      SkipsText(s[1..], rest);
    }
  }

  lemma LeadingRun(run: string, rest: string)
    requires run != "" && AllDigits(run) && (rest == "" || !IsDigit(rest[0]))
    ensures Tokens(run + rest) == [ReadNumber(run)] + Tokens(rest)
  {
    RunOfDigits(run, rest);
    assert (run + rest)[..|run|] == run && (run + rest)[|run|..] == rest;
  }

  lemma {:induction false} TokensAreRuns(runs: seq<string>, between: seq<string>)
    requires |between| == |runs| + 1 && (forall k :: 0 <= k < |between| ==> NoDigits(between[k]))
    requires forall k :: 0 <= k < |runs| ==> runs[k] != "" && AllDigits(runs[k]) && (k > 0 ==> between[k] != "")
    ensures Tokens(Spelled(runs, between)) == Numbers(runs)
  {
    if runs == [] {
      SkipsText(between[0], "");
      assert between[0] + "" == between[0];
    } else {
      var rest := Spelled(runs[1..], between[1..]);
      TokensAreRuns(runs[1..], between[1..]);
      assert NoDigits(between[1]) && (|runs| > 1 ==> between[1] != "");
      LeadingRun(runs[0], rest);
      SkipsText(between[0], runs[0] + rest);
      assert between[0] + runs[0] + rest == between[0] + (runs[0] + rest);
    }
  }

  /** Whatever stands before, between and after the runs of digits, a text is read as their
      numbers in order, and as zero when it has none. */
  lemma AnyTextIsRead(runs: seq<string>, between: seq<string>)
    requires |between| == |runs| + 1 && (forall k :: 0 <= k < |between| ==> NoDigits(between[k]))
    requires forall k :: 0 <= k < |runs| ==> runs[k] != "" && AllDigits(runs[k]) && (k > 0 ==> between[k] != "")
    ensures ParseVersion(Spelled(runs, between)) == if runs == [] then [0] else Numbers(runs)
  {
    TokensAreRuns(runs, between);
  }
}

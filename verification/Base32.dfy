/** Base32 secrets (section 6 of RFC 4648; core/platform/auth/mfa.py): a secret is shown
    without its `=` padding and padded again before it is decoded. */
module Base32 {
  import opened Text
  import opened Arithmetic

  // ----- positional numbers --------------------------------------------------------------

  function Power(base: nat, k: nat): nat {
    if k == 0 then 1 else Times(base, Power(base, k - 1))
  }

  function Times(x: nat, y: nat): nat {
    x * y
  }

  /** The value of a digit sequence, most significant digit first. */
  function Val(base: nat, ds: seq<nat>): nat {
    if ds == [] then 0 else Times(base, Val(base, ds[..|ds| - 1])) + ds[|ds| - 1]
  }

  /** The `k` least significant digits of `n`. */
  function Digits(base: nat, n: nat, k: nat): (ds: seq<nat>)
    requires base > 0
    ensures |ds| == k && AllBelow(ds, base)
    decreases k
  {
    if k == 0 then [] else Digits(base, Quotient(n, base), k - 1) + [Remainder(n, base)]
  }

  predicate AllBelow(ds: seq<nat>, base: nat) {
    forall i :: 0 <= i < |ds| ==> ds[i] < base
  }

  lemma {:induction false} DigitsOfVal(base: nat, ds: seq<nat>)
    requires base > 0 && AllBelow(ds, base)
    ensures Digits(base, Val(base, ds), |ds|) == ds
  {
    if ds != [] {
      var front, last := ds[..|ds| - 1], ds[|ds| - 1];
      DigitsOfVal(base, front);
      QuotientUnique(Val(base, ds), base, Val(base, front), last);
      assert ds == front + [last];
    }
  }

  lemma {:induction false} ValOfDigits(base: nat, n: nat, k: nat)
    requires base > 0 && n < Power(base, k)
    ensures Val(base, Digits(base, n, k)) == n
    decreases k
  {
    if k > 0 {
      DivisionLaw(n, base);
      QuotientBelow(base, n, Power(base, k - 1));
      ValOfDigits(base, Quotient(n, base), k - 1);
      var ds := Digits(base, n, k);
      assert ds[..k - 1] == Digits(base, Quotient(n, base), k - 1);
    }
  }

  lemma QuotientBelow(base: nat, n: nat, p: nat)
    requires base > 0 && n < Times(base, p)
    ensures Quotient(n, base) < p
  {
  }

  lemma {:induction false} ValBound(base: nat, ds: seq<nat>)
    requires base > 0 && AllBelow(ds, base)
    ensures Val(base, ds) < Power(base, |ds|)
  {
    if ds != [] {
      var front := ds[..|ds| - 1];
      ValBound(base, front);
      ProductMonotone(base, Val(base, front) + 1, Power(base, |front|));
      assert base * (Val(base, front) + 1) == base * Val(base, front) + base;
    }
  }

  function Zeros(k: nat): (z: seq<nat>)
    ensures |z| == k && forall i :: 0 <= i < k ==> z[i] == 0
  {
    seq(k, i => 0)
  }

  lemma TimesCommutes(x: nat, y: nat, z: nat)
    ensures Times(x, Times(y, z)) == Times(y, Times(x, z))
  {
  }

  lemma {:induction false} ValWithZeros(base: nat, ds: seq<nat>, k: nat)
    ensures Val(base, ds + Zeros(k)) == Times(Val(base, ds), Power(base, k))
  {
    if k == 0 {
      assert ds + Zeros(k) == ds;
    } else {
      ValWithZeros(base, ds, k - 1);
      var all := ds + Zeros(k);
      assert all[..|all| - 1] == ds + Zeros(k - 1);
      TimesCommutes(base, Val(base, ds), Power(base, k - 1));
    }
  }

  /** A multiple of base^j ends in j zero digits. */
  lemma {:induction false} TrailingZeros(base: nat, m: nat, k: nat, j: nat)
    requires base > 0
    ensures Digits(base, Times(m, Power(base, j)), k + j) == Digits(base, m, k) + Zeros(j)
    decreases j
  {
    if j > 0 {
      TimesCommutes(m, base, Power(base, j - 1));
      QuotientUnique(Times(m, Power(base, j)), base, Times(m, Power(base, j - 1)), 0);
      TrailingZeros(base, m, k, j - 1);
      assert Zeros(j) == Zeros(j - 1) + [0];
    } else {
      assert Digits(base, m, k) + Zeros(j) == Digits(base, m, k);
    }
  }

  // ----- bytes and alphabet ---------------------------------------------------------------

  /** The alphabet: A to Z, then 2 to 7. */
  function CharOf(d: nat): char
    requires d < 32
  {
    if d < 26 then ('A' as int + d) as char else ('2' as int + d - 26) as char
  }

  function DigitOf(c: char): Option<nat> {
    if 'A' <= c <= 'Z' then Some(c as int - 'A' as int)
    else if '2' <= c <= '7' then Some(c as int - '2' as int + 26)
    else None
  }

  function Chars(ds: seq<nat>): (s: string)
    requires AllBelow(ds, 32)
    ensures |s| == |ds|
  {
    seq(|ds|, i requires 0 <= i < |ds| => CharOf(ds[i]))
  }

  predicate InAlphabet(s: string) {
    forall i :: 0 <= i < |s| ==> DigitOf(s[i]).Some?
  }

  function DigitsOf(s: string): (ds: seq<nat>)
    requires InAlphabet(s)
    ensures |ds| == |s| && AllBelow(ds, 32)
  {
    seq(|s|, i requires 0 <= i < |s| => DigitOf(s[i]).value)
  }

  lemma CharsDecode(ds: seq<nat>)
    requires AllBelow(ds, 32)
    ensures InAlphabet(Chars(ds)) && DigitsOf(Chars(ds)) == ds
    ensures Trimmed(Chars(ds)) && Upper(Chars(ds)) == Chars(ds)
    ensures forall i :: 0 <= i < |ds| ==> Chars(ds)[i] != '='
  {
  }

  // ----- encoding ------------------------------------------------------------------------------

  /** How many characters carry the bits of `n` bytes, for n from 1 to 4. */
  function CharCount(n: nat): nat {
    if n == 1 then 2 else if n == 2 then 4 else if n == 3 then 5 else 7
  }

  /** Forty bits as eight groups of five. */
  function Quintets(b: seq<nat>): (ds: seq<nat>)
    requires |b| == 5
    ensures |ds| == 8 && AllBelow(ds, 32)
  {
    Digits(32, Val(256, b), |b| + 3)
  }

  /** Forty bits as five bytes. */
  function Octets(ds: seq<nat>): (b: seq<nat>)
    requires |ds| == 8
    ensures |b| == 5 && AllBelow(b, 256)
  {
    Digits(256, Val(32, ds), |ds| - 3)
  }

  /** The 5-bit groups of the encoding, without padding: full groups of five bytes, then a
      remainder completed with zero bytes of which only the significant groups are kept. */
  function Groups(b: seq<nat>): (ds: seq<nat>)
    requires AllBelow(b, 256)
    ensures AllBelow(ds, 32)
  {
    if b == [] then []
    else if |b| >= 5 then Quintets(b[..5]) + Groups(b[5..])
    else Quintets(b + Zeros(5 - |b|))[..CharCount(|b|)]
  }

  lemma ValOneMore(base: nat, ds: seq<nat>, d: nat)
    ensures Val(base, ds + [d]) == base * Val(base, ds) + d
  {
    assert (ds + [d])[..|ds|] == ds;
  }

  /** A test vector of section 10 of RFC 4648: `fooba` is written `MZXW6YTB`. */
  lemma EncodingExample(b: seq<nat>)
    requires b == [0x66] + [0x6f] + [0x6f] + [0x62] + [0x61]
    ensures AllBelow(b, 256) && Chars(Groups(b)) == "MZXW6YTB"
  {
    var ds: seq<nat> := [] + [12] + [25] + [23] + [22] + [30] + [24] + [19] + [1];
    ExampleGroups(b, ds);
    ExampleChars(ds);
  }

  lemma ExampleGroups(b: seq<nat>, ds: seq<nat>)
    requires b == [0x66] + [0x6f] + [0x6f] + [0x62] + [0x61]
    requires ds == [] + [12] + [25] + [23] + [22] + [30] + [24] + [19] + [1]
    ensures AllBelow(b, 256) && Groups(b) == ds
  {
    ExampleValues(b, ds);
    DigitsOfVal(32, ds);
    assert b[..5] == b && b[5..] == [];
  }

  lemma ExampleChars(ds: seq<nat>)
    requires ds == [] + [12] + [25] + [23] + [22] + [30] + [24] + [19] + [1]
    ensures AllBelow(ds, 32) && Chars(ds) == "MZXW6YTB"
  {
  }

  lemma ExampleValues(b: seq<nat>, ds: seq<nat>)
    requires b == [0x66] + [0x6f] + [0x6f] + [0x62] + [0x61]
    requires ds == [] + [12] + [25] + [23] + [22] + [30] + [24] + [19] + [1]
    ensures Val(256, b) == Val(32, ds)
  {
    assert [] + [0x66] == [0x66];
    ValOneMore(256, [], 0x66);
    ValOneMore(256, [0x66], 0x6f);
    ValOneMore(256, [0x66] + [0x6f], 0x6f);
    ValOneMore(256, [0x66] + [0x6f] + [0x6f], 0x62);
    ValOneMore(256, [0x66] + [0x6f] + [0x6f] + [0x62], 0x61);
    ValOneMore(32, [], 12);
    ValOneMore(32, [] + [12], 25);
    ValOneMore(32, [] + [12] + [25], 23);
    ValOneMore(32, [] + [12] + [25] + [23], 22);
    ValOneMore(32, [] + [12] + [25] + [23] + [22], 30);
    ValOneMore(32, [] + [12] + [25] + [23] + [22] + [30], 24);
    ValOneMore(32, [] + [12] + [25] + [23] + [22] + [30] + [24], 19);
    ValOneMore(32, [] + [12] + [25] + [23] + [22] + [30] + [24] + [19], 1);
  }

  function Repeat(c: char, k: nat): (s: string)
    ensures |s| == k && forall i :: 0 <= i < k ==> s[i] == c
  {
    seq(k, i => c)
  }

  /** The number of `=` that completes `l` characters to a multiple of eight. */
  function PadLength(l: nat): nat {
    (8 - l % 8) % 8
  }

  function Encode(b: seq<nat>): string
    requires AllBelow(b, 256)
  {
    var ds := Groups(b);
    Chars(ds) + Repeat('=', PadLength(|ds|))
  }

  function StripPadding(s: string): string {
    if s != "" && s[|s| - 1] == '=' then StripPadding(s[..|s| - 1]) else s
  }

  /** `generate_mfa_secret`, given the random bytes. */
  function Secret(b: seq<nat>): string
    requires AllBelow(b, 256)
  {
    StripPadding(Encode(b))
  }

  // ----- decoding --------------------------------------------------------------------------------

  /** How many bytes a final group of `m` characters yields, for m in 2, 4, 5, 7. */
  function ByteCount(m: nat): nat {
    if m == 2 then 1 else if m == 4 then 2 else if m == 5 then 3 else 4
  }

  function Bytes(ds: seq<nat>): seq<nat> {
    if ds == [] then []
    else if |ds| >= 8 then Octets(ds[..8]) + Bytes(ds[8..])
    else Octets(ds + Zeros(8 - |ds|))[..ByteCount(|ds|)]
  }

  /** `base64.b32decode`; `None` when it raises. */
  function Decode(s: string): Option<seq<nat>> {
    var core := StripPadding(s);
    var pad := |s| - |core|;
    if |s| % 8 != 0 || pad !in {0, 1, 3, 4, 6} || !InAlphabet(core) then None
    else Some(Bytes(DigitsOf(core)))
  }

  /** `_decode_secret` */
  function DecodeSecret(secret: string): Option<seq<nat>> {
    var normalized := Upper(Strip(secret));
    Decode(normalized + Repeat('=', PadLength(|normalized|)))
  }

  // ----- round trip --------------------------------------------------------------------------------

  lemma QuantumPowers(j: nat, k: nat)
    requires j == 5 && k == 8
    ensures Power(256, j) == Power(32, k)
  {
  }

  lemma FullQuantum(b: seq<nat>)
    requires |b| == 5 && AllBelow(b, 256)
    ensures Val(32, Quintets(b)) == Val(256, b) && Octets(Quintets(b)) == b
  {
    QuantumPowers(|b|, |b| + 3);
    ValBound(256, b);
    ValOfDigits(32, Val(256, b), |b| + 3);
    DigitsOfVal(256, b);
  }

  function Shift(n: nat): nat {
    if n == 1 then 4 else if n == 2 then 16 else if n == 3 then 2 else 8
  }

  /** The zero bits that complete `n` bytes to full groups. */
  lemma SmallPowers(n: nat, j: nat, k: nat)
    requires 1 <= n <= 4 && j == 5 - n && k == 8 - CharCount(n)
    ensures Power(256, j) == Times(Shift(n), Power(32, k))
  {
    assert Power(256, 1) == 256 && Power(256, 2) == 0x1_0000 && Power(256, 3) == 0x100_0000 && Power(256, 4) == 0x1_0000_0000;
    assert Power(32, 1) == 32 && Power(32, 3) == 0x8000 && Power(32, 4) == 0x10_0000 && Power(32, 6) == 0x4000_0000;
  }

  /** The groups beyond the kept ones are zero. */
  lemma KeptGroups(b: seq<nat>, j: nat, k: nat)
    requires 1 <= |b| <= 4 && AllBelow(b, 256) && j == 5 - |b| && k == 8 - CharCount(|b|)
    ensures var ds := Quintets(b + Zeros(j)); ds[..CharCount(|b|)] + Zeros(k) == ds
  {
    var m := CharCount(|b|);
    var v, c := Val(256, b), Shift(|b|);
    ValWithZeros(256, b, j);
    SmallPowers(|b|, j, k);
    assert Times(v, Times(c, Power(32, k))) == Times(Times(v, c), Power(32, k)) by {
      assert v * (c * Power(32, k)) == v * c * Power(32, k);
    }
    TrailingZeros(32, Times(v, c), m, k);
  }

  lemma PartialQuantum(b: seq<nat>)
    requires 1 <= |b| <= 4 && AllBelow(b, 256)
    ensures var m := CharCount(|b|);
            Octets(Quintets(b + Zeros(5 - |b|))[..m] + Zeros(8 - m))[..ByteCount(m)] == b
  {
    var padded := b + Zeros(5 - |b|);
    KeptGroups(b, 5 - |b|, 8 - CharCount(|b|));
    FullQuantum(padded);
    assert ByteCount(CharCount(|b|)) == |b|;
    assert padded[..|b|] == b;
  }

  lemma {:induction false} GroupsLength(b: seq<nat>)
    requires AllBelow(b, 256)
    ensures WholeBytes(|Groups(b)|)
    decreases |b|
  {
    if |b| >= 5 {
      LengthAddsEight(b);
      GroupsLength(b[5..]);
      EightMore(|Groups(b[5..])|);
    } else {
      FewGroups(b);
    }
  }

  lemma EightMore(l: nat)
    ensures (8 + l) % 8 == l % 8
  {
  }

  lemma FewGroups(b: seq<nat>)
    requires AllBelow(b, 256) && |b| < 5
    ensures |Groups(b)| in {0, 2, 4, 5, 7}
  {
  }

  lemma LengthAddsEight(b: seq<nat>)
    requires AllBelow(b, 256) && |b| >= 5
    ensures |Groups(b)| == 8 + |Groups(b[5..])|
  {
  }

  /** Decoding the groups of any byte sequence gives the bytes back. */
  lemma {:induction false} BytesOfGroups(b: seq<nat>)
    requires AllBelow(b, 256)
    ensures Bytes(Groups(b)) == b
    decreases |b|
  {
    if |b| >= 5 {
      var q, rest := Quintets(b[..5]), Groups(b[5..]);
      assert (q + rest)[..8] == q && (q + rest)[8..] == rest;
      FullQuantum(b[..5]);
      BytesOfGroups(b[5..]);
      assert b == b[..5] + b[5..];
    } else if b != [] {
      PartialQuantum(b);
    }
  }

  lemma {:induction false} StripPaddingOf(s: string, k: nat)
    requires s == "" || s[|s| - 1] != '='
    ensures StripPadding(s + Repeat('=', k)) == s
  {
    var t := s + Repeat('=', k);
    if k == 0 {
      assert t == s;
    } else {
      assert t[..|t| - 1] == s + Repeat('=', k - 1);
      StripPaddingOf(s, k - 1);
    }
  }

  /** For secrets of every length: the shown secret is the encoding without its padding, and
      padding it again decodes to the original bytes. */
  lemma SecretRoundTrips(b: seq<nat>)
    requires AllBelow(b, 256)
    ensures Secret(b) == Chars(Groups(b))
    ensures Secret(b) + Repeat('=', PadLength(|Secret(b)|)) == Encode(b)
    ensures DecodeSecret(Secret(b)) == Some(b)
  {
    var ds := Groups(b);
    SecretIsCore(b);
    CharsDecode(ds);
    TrimmedIsFixed(Chars(ds));
    GroupsLength(b);
    PaddedDecodes(ds);
    BytesOfGroups(b);
  }

  lemma SecretIsCore(b: seq<nat>)
    requires AllBelow(b, 256)
    ensures Secret(b) == Chars(Groups(b))
  {
    CharsDecode(Groups(b));
    StripPaddingOf(Chars(Groups(b)), PadLength(|Groups(b)|));
  }

  /** The group counts that whole bytes can leave. */
  predicate WholeBytes(l: nat) {
    l % 8 in {0, 2, 4, 5, 7}
  }

  /** What `b32decode` does with a text whose padding completes it. */
  lemma DecodeOfParts(core: string)
    requires InAlphabet(core) && (core == "" || core[|core| - 1] != '=') && WholeBytes(|core|)
    ensures Decode(core + Repeat('=', PadLength(|core|))) == Some(Bytes(DigitsOf(core)))
  {
    StripPaddingOf(core, PadLength(|core|));
    PadCompletes(|core|);
  }

  lemma PaddedDecodes(ds: seq<nat>)
    requires AllBelow(ds, 32) && WholeBytes(|ds|)
    ensures Decode(Chars(ds) + Repeat('=', PadLength(|ds|))) == Some(Bytes(ds))
  {
    CharsDecode(ds);
    DecodeOfParts(Chars(ds));
  }

  lemma PadCompletes(l: nat)
    requires WholeBytes(l)
    ensures (l + PadLength(l)) % 8 == 0 && PadLength(l) in {0, 1, 3, 4, 6}
  {
  }

  /** The alphabet survives a change of case and surrounding blanks, as typed secrets may
      have them. */
  lemma TypedSecretDecodes(b: seq<nat>, typed: string)
    requires AllBelow(b, 256) && Upper(Strip(typed)) == Secret(b)
    ensures DecodeSecret(typed) == Some(b)
  {
    SecretRoundTrips(b);
    var ds := Groups(b);
    CharsDecode(ds);
    TrimmedIsFixed(Chars(ds));
  }

  predicate IsBase32(c: char) {
    'A' <= c <= 'Z' || '2' <= c <= '7'
  }

  lemma PadFits(l: nat)
    ensures (l + PadLength(l)) % 8 == 0 && (PadLength(l) in {0, 1, 3, 4, 6} <==> WholeBytes(l))
  {
  }

  lemma DecodesWhen(core: string, k: nat)
    requires core == "" || core[|core| - 1] != '='
    ensures Decode(core + Repeat('=', k)).Some? <==> (|core| + k) % 8 == 0 && k in {0, 1, 3, 4, 6} && InAlphabet(core)
  {
    StripPaddingOf(core, k);
  }

  predicate AllBase32(s: string) {
    forall i :: 0 <= i < |s| ==> IsBase32(s[i])
  }

  lemma AlphabetIsBase32(s: string)
    ensures InAlphabet(s) <==> AllBase32(s)
  {
    assert forall c :: DigitOf(c).Some? <==> IsBase32(c);
  }

  lemma PaddedDecodesExactly(s: string)
    requires s == "" || s[|s| - 1] != '='
    ensures Decode(s + Repeat('=', PadLength(|s|))).Some? <==> WholeBytes(|s|) && AllBase32(s)
  {
    DecodesWhen(s, PadLength(|s|));
    PadFits(|s|);
    AlphabetIsBase32(s);
  }

  /** A secret typed without padding decodes if and only if, case and surrounding blanks
      aside, it consists of letters and the digits 2 to 7 and its last group of eight is full
      or has two, four, five or seven characters. */
  lemma DecodesExactly(secret: string)
    requires var s := Upper(Strip(secret)); s == "" || s[|s| - 1] != '='
    ensures var s := Upper(Strip(secret));
            DecodeSecret(secret).Some? <==> |s| % 8 in {0, 2, 4, 5, 7} && AllBase32(s)
  {
    PaddedDecodesExactly(Upper(Strip(secret)));
  }
}

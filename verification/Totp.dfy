/** Time-based one-time codes (core/platform/auth/mfa.py; RFC 6238 and RFC 4226), with the
    keyed hash left abstract: `digest` maps a key and a counter to 20 bytes. */
module Totp {
  import opened Text
  import opened Base32

  const INTERVAL: int := 30

  type Digest = d: seq<nat> | |d| == 20 && forall i :: 0 <= i < 20 ==> d[i] < 256
    witness seq(20, i => 0)

  /** `int(x)` truncates toward zero. */
  function Truncate(x: real): int {
    if x >= 0.0 then x.Floor else -((-x).Floor)
  }

  /** `int(timestamp) // 30` */
  function CounterAt(t: real): int {
    Truncate(t) / INTERVAL
  }

  // ----- dynamic truncation (section 5.3 of RFC 4226) -----------------------------------------

  function Offset(d: Digest): nat {
    d[19] % 16
  }

  /** The four bytes read are inside the digest and none of them is missing. */
  lemma TruncationStaysInside(d: Digest)
    ensures Offset(d) + 4 <= |d|
    ensures |d[Offset(d)..Offset(d) + 4]| == 4
  {
  }

  function BinaryCode(d: Digest): (v: nat)
    ensures v < 0x8000_0000
  {
    var o := Offset(d);
    (d[o] * 0x100_0000 + d[o + 1] * 0x1_0000 + d[o + 2] * 0x100 + d[o + 3]) % 0x8000_0000
  }

  /** The code is the low 31 bits of the four bytes read as one number, most significant byte
      first. */
  lemma BinaryCodeIsBigEndian(d: Digest)
    ensures BinaryCode(d) == Val(256, d[Offset(d)..Offset(d) + 4]) % 0x8000_0000
  {
    var b := d[Offset(d)..Offset(d) + 4];
    assert b[..3][..2][..1] == [b[0]] && b[..3][..2] == [b[0], b[1]] && b[..3] == [b[0], b[1], b[2]];
    assert Val(256, b[..1]) == b[0] by { assert b[..1][..0] == []; }
    assert b[..2][..1] == b[..1] && b[..3][..2] == b[..2];
    assert Val(256, b[..2]) == 256 * b[0] + b[1];
    assert Val(256, b[..3]) == 65536 * b[0] + 256 * b[1] + b[2];
  }

  function DecimalDigit(n: nat): char {
    ('0' as int + n % 10) as char
  }

  /** Six decimal digits with leading zeros. */
  function SixDigits(v: nat): (s: string)
    requires v < 1_000_000
    ensures |s| == 6 && forall i :: 0 <= i < 6 ==> '0' <= s[i] <= '9'
  {
    [DecimalDigit(v / 100_000), DecimalDigit(v / 10_000), DecimalDigit(v / 1000),
     DecimalDigit(v / 100), DecimalDigit(v / 10), DecimalDigit(v)]
  }

  /** The code for one counter. */
  function CodeOf(d: Digest): string {
    SixDigits(BinaryCode(d) % 1_000_000)
  }

  /** `generate_totp_code` as a function of the counter. */
  function Codes(digest: int -> Digest): int -> string {
    c => CodeOf(digest(c))
  }

  /** The rendering loses nothing: a code determines the value modulo a million. */
  lemma SixDigitsInjective(v: nat, w: nat)
    requires v < 1_000_000 && w < 1_000_000 && SixDigits(v) == SixDigits(w)
    ensures v == w
  {
    var s, t := SixDigits(v), SixDigits(w);
    assert s[0] == t[0] && s[1] == t[1] && s[2] == t[2] && s[3] == t[3] && s[4] == t[4] && s[5] == t[5];
    SixDigitsValue(v);
    SixDigitsValue(w);
  }

  lemma SixDigitsValue(v: nat)
    requires v < 1_000_000
    ensures v == v / 100_000 % 10 * 100_000 + v / 10_000 % 10 * 10_000 + v / 1000 % 10 * 1000
                 + v / 100 % 10 * 100 + v / 10 % 10 * 10 + v % 10
  {
    var a, b, c, d, e := v / 10, v / 100, v / 1000, v / 10_000, v / 100_000;
    assert b == a / 10 && c == b / 10 && d == c / 10 && e == d / 10 && e / 10 == 0;
    assert v == 10 * a + v % 10 && a == 10 * b + a % 10 && b == 10 * c + b % 10;
    assert c == 10 * d + c % 10 && d == 10 * e + d % 10 && e % 10 == e;
  }

  lemma ExampleValue()
    ensures (0x50 * 0x100_0000 + 0xef * 0x1_0000 + 0x7f * 0x100 + 0x19) % 0x8000_0000 % 1_000_000 == 872_921
  {
  }

  lemma ExampleDigits()
    ensures SixDigits(872_921) == "872921"
  {
  }

  /** The example of section 5.4 of RFC 4226, of whose digest these bytes are read. */
  lemma TruncationExample(d: Digest)
    requires d[19] == 0x5a && d[10] == 0x50 && d[11] == 0xef && d[12] == 0x7f && d[13] == 0x19
    ensures CodeOf(d) == "872921"
  {
    ExampleValue();
    ExampleDigits();
    assert Offset(d) == 10;
    assert BinaryCode(d) == (0x50 * 0x100_0000 + 0xef * 0x1_0000 + 0x7f * 0x100 + 0x19) % 0x8000_0000;
  }

  // ----- verification ------------------------------------------------------------------------------

  /** The ASCII digits of the typed code, in order. */
  function OnlyDigits(s: string): string {
    if s == "" then "" else OnlyDigits(s[..|s| - 1]) + if '0' <= s[|s| - 1] <= '9' then [s[|s| - 1]] else []
  }

  datatype Verdict = Accepted | Refused | Raised

  /** The counter of the window `k` drift steps away. */
  function WindowCounter(t: real, k: int): int {
    CounterAt(t + (k * INTERVAL) as real)
  }

  predicate MatchesStep(generate: int -> string, t: real, k: int, code: string) {
    generate(WindowCounter(t, k)) == code
  }

  /** `verify_totp_code` on a usable secret. */
  function Verification(generate: int -> string, t: real, d: int, code: string): Verdict
    requires d >= 0
  {
    if WindowCounter(t, -d) < 0 then Raised
    else if exists k :: -d <= k <= d && MatchesStep(generate, t, k, code) then Accepted
    else Refused
  }

  /** The window loop, earliest step first. A negative counter cannot be packed and raises. */
  method MatchWindow(generate: int -> string, t: real, d: int, code: string) returns (v: Verdict)
    requires d >= 0
    ensures v == Verification(generate, t, d, code)
  {
    for step := -d to d + 1
      invariant forall k :: -d <= k < step ==> !MatchesStep(generate, t, k, code)
      invariant step > -d ==> WindowCounter(t, -d) >= 0
    {
      var counter := WindowCounter(t, step);
      LaterWindows(t, -d, step);
      if counter < 0 {
        return Raised;
      }
      if generate(counter) == code {
        assert MatchesStep(generate, t, step, code);
        return Accepted;
      }
    }
    return Refused;
  }

  lemma LaterWindows(t: real, j: int, k: int)
    requires j <= k
    ensures WindowCounter(t, j) <= WindowCounter(t, k)
  {
  }

  /** `generate_totp_code`; `None` when it raises: on a secret that cannot be decoded, or a
      counter before the epoch, which cannot be packed. */
  function Generated(secret: string, t: real, digest: (seq<nat>, int) -> Digest): Option<string> {
    var key := DecodeSecret(secret);
    if key.None? || CounterAt(t) < 0 then None else Some(CodeOf(digest(key.value, CounterAt(t))))
  }

  function Keyed(key: seq<nat>, digest: (seq<nat>, int) -> Digest): int -> Digest {
    c => digest(key, c)
  }

  /** `verify_totp_code` */
  function Verified(secret: string, code: string, t: real, driftSteps: int, digest: (seq<nat>, int) -> Digest): Verdict {
    var normalized, digits := Upper(Strip(secret)), OnlyDigits(Strip(code));
    if normalized == "" || |digits| != 6 then Refused
    else
      match DecodeSecret(normalized)
      case None => Raised
      case Some(key) => Verification(Codes(Keyed(key, digest)), t, if driftSteps < 0 then 0 else driftSteps, digits)
  }

  method VerifyTotpCode(secret: string, code: string, t: real, driftSteps: int, digest: (seq<nat>, int) -> Digest) returns (v: Verdict)
    ensures v == Verified(secret, code, t, driftSteps, digest)
  {
    var normalizedSecret := Upper(Strip(secret));
    var normalizedCode := OnlyDigits(Strip(code));
    if normalizedSecret == "" || |normalizedCode| != 6 {
      return Refused;
    }
    // The window has at least one step, whose code generation decodes the secret.
    var key := DecodeSecret(normalizedSecret);
    if key.None? {
      return Raised;
    }
    v := MatchWindow(Codes(Keyed(key.value, digest)), t, if driftSteps < 0 then 0 else driftSteps, normalizedCode);
  }

  lemma WindowsAreConsecutive(t: real, d: int, k: int)
    requires -d <= k <= d && t >= (d * INTERVAL) as real
    ensures WindowCounter(t, k) == CounterAt(t) + k >= 0
  {
  }

  /** Verification accepts exactly the codes of the counters within the drift window
      (section 5.2 of RFC 6238). */
  lemma AcceptsExactlyTheWindow(t: real, d: int, generate: int -> string, code: string)
    requires d >= 0 && t >= (d * INTERVAL) as real
    ensures Verification(generate, t, d, code) != Raised
    ensures Verification(generate, t, d, code) == Accepted
       <==> exists c :: CounterAt(t) - d <= c <= CounterAt(t) + d && generate(c) == code
  {
    WindowsAreConsecutive(t, d, -d);
    if Verification(generate, t, d, code) == Accepted {
      var k :| -d <= k <= d && MatchesStep(generate, t, k, code);
      WindowsAreConsecutive(t, d, k);
      assert generate(CounterAt(t) + k) == code;
    }
    if exists c :: CounterAt(t) - d <= c <= CounterAt(t) + d && generate(c) == code {
      var c :| CounterAt(t) - d <= c <= CounterAt(t) + d && generate(c) == code;
      WindowsAreConsecutive(t, d, c - CounterAt(t));
      assert MatchesStep(generate, t, c - CounterAt(t), code);
    }
  }

  /** A counter covers the thirty seconds from thirty times its value on. */
  lemma CounterCoversThirtySeconds(t: real)
    requires t >= 0.0
    ensures (CounterAt(t) * 30) as real <= t < (CounterAt(t) * 30 + 30) as real
  {
  }

  /** Of a typed code the digits are read, and nothing else, in order. */
  lemma {:induction false} OnlyDigitsAreRead(s: string, t: string)
    ensures OnlyDigits(s + t) == OnlyDigits(s) + OnlyDigits(t)
    ensures |s| == 1 ==> OnlyDigits(s) == if '0' <= s[0] <= '9' then s else ""
  {
    if t == "" {
      assert s + t == s;
    } else {
      var front := t[..|t| - 1];
      OnlyDigitsAreRead(s, front);
      assert (s + t)[..|s + t| - 1] == s + front;
    }
    if |s| == 1 { assert s[..0] == "" && s == [s[0]]; }
  }

  /** The digits are the code of this counter. */
  predicate IsCodeOf(key: seq<nat>, digest: (seq<nat>, int) -> Digest, c: int, digits: string) {
    CodeOf(digest(key, c)) == digits
  }

  ghost predicate InWindow(key: seq<nat>, digest: (seq<nat>, int) -> Digest, t: real, drift: nat, digits: string) {
    exists c :: CounterAt(t) - drift <= c <= CounterAt(t) + drift && IsCodeOf(key, digest, c, digits)
  }

  lemma WindowOfKey(key: seq<nat>, t: real, drift: nat, digest: (seq<nat>, int) -> Digest, digits: string)
    requires t >= (drift * INTERVAL) as real
    ensures Verification(Codes(Keyed(key, digest)), t, drift, digits) == Accepted <==> InWindow(key, digest, t, drift, digits)
    ensures InWindow(key, digest, t, drift, digits) ==> |digits| == 6
  {
    var codes := Codes(Keyed(key, digest));
    AcceptsExactlyTheWindow(t, drift, codes, digits);
    forall c ensures codes(c) == digits <==> IsCodeOf(key, digest, c, digits) {}
  }

  lemma VerifiedInSteps(secret: string, code: string, t: real, drift: int, digest: (seq<nat>, int) -> Digest)
    ensures var normalized, digits := Upper(Strip(secret)), OnlyDigits(Strip(code));
            Verified(secret, code, t, drift, digest) == Accepted
            <==> && normalized != "" && |digits| == 6 && DecodeSecret(normalized).Some?
                 && Verification(Codes(Keyed(DecodeSecret(normalized).value, digest)), t, if drift > 0 then drift else 0, digits) == Accepted
  {
  }

  /** A code is accepted if and only if the secret is not blank and decodes, and the digits
      typed are the code of some counter within the window around this moment; a negative
      drift leaves the present counter alone. */
  lemma VerifiedExactly(secret: string, code: string, t: real, drift: int, digest: (seq<nat>, int) -> Digest)
    requires t >= 0.0 && t >= (drift * INTERVAL) as real
    ensures var key := DecodeSecret(Upper(Strip(secret)));
            Verified(secret, code, t, drift, digest) == Accepted
            <==> && Strip(secret) != "" && key.Some?
                 && InWindow(key.value, digest, t, if drift > 0 then drift else 0, OnlyDigits(Strip(code)))
  {
    var normalized, d := Upper(Strip(secret)), if drift > 0 then drift else 0;
    assert normalized == "" <==> Strip(secret) == "" by { assert |normalized| == |Strip(secret)|; }
    VerifiedInSteps(secret, code, t, drift, digest);
    if DecodeSecret(normalized).Some? {
      WindowOfKey(DecodeSecret(normalized).value, t, d, digest, OnlyDigits(Strip(code)));
    }
  }

  lemma {:induction false} DigitsAreKept(s: string)
    requires forall i :: 0 <= i < |s| ==> '0' <= s[i] <= '9'
    ensures OnlyDigits(s) == s
  {
    if s != "" { DigitsAreKept(s[..|s| - 1]); }
  }

  lemma CodeIsItsOwnDigits(d: Digest)
    ensures Strip(CodeOf(d)) == CodeOf(d) && OnlyDigits(CodeOf(d)) == CodeOf(d)
  {
    var s := CodeOf(d);
    TrimmedIsFixed(s);
    DigitsAreKept(s);
  }

  lemma NearbyCounters(t: real, issued: real)
    requires 0.0 <= t && 0.0 <= issued && issued - 30.0 <= t <= issued + 30.0
    ensures CounterAt(t) - 1 <= CounterAt(issued) <= CounterAt(t) + 1
  {
  }

  /** For a secret issued for at least ten random bytes and typed in any case, with blanks
      around it: any code generated within thirty seconds of the moment of verification is
      accepted with the default drift of one step. */
  lemma FreshCodesAreAccepted(b: seq<nat>, typed: string, t: real, issued: real, digest: (seq<nat>, int) -> Digest)
    requires AllBelow(b, 256) && |b| >= 10 && Upper(Strip(typed)) == Secret(b)
    requires t >= 30.0 && 0.0 <= issued && issued - 30.0 <= t <= issued + 30.0
    ensures var code := Generated(typed, issued, digest);
            code.Some? && Verified(typed, code.value, t, 1, digest) == Accepted
  {
    var codes := Codes(Keyed(b, digest));
    SecretRoundTrips(b);
    TypedSecretDecodes(b, typed);
    SecretIsNotBlank(b);
    CodeIsItsOwnDigits(digest(b, CounterAt(issued)));
    NearbyCounters(t, issued);
    AcceptsExactlyTheWindow(t, 1, codes, CodeOf(digest(b, CounterAt(issued))));
    assert codes(CounterAt(issued)) == CodeOf(digest(b, CounterAt(issued)));
  }

  lemma SecretIsNotBlank(b: seq<nat>)
    requires AllBelow(b, 256) && |b| >= 5
    ensures Secret(b) != ""
  {
    SecretRoundTrips(b);
    LengthAddsEight(b);
  }
}

/** Unicode text helpers the source takes from the standard library, and namespace
    normalisation (src/governance.rs:128-146). */
module Text {

  predicate IsSpace(c: char) {
    var n := c as int;
    || 0x9 <= n <= 0xD || n == 0x20 || n == 0x85 || n == 0xA0 || n == 0x1680
    || 0x2000 <= n <= 0x200A || n == 0x2028 || n == 0x2029 || n == 0x202F || n == 0x205F || n == 0x3000
  }

  predicate IsControl(c: char) {
    var n := c as int;
    n < 0x20 || 0x7F <= n < 0xA0
  }

  /** The 25 characters of Unicode's White_Space property, and the 65 of its general category Cc. */
  lemma CharacterClasses(c: char)
    ensures IsSpace(c) <==> c as int in {
      9, 10, 11, 12, 13, 32, 133, 160, 5760, 8192, 8193, 8194, 8195, 8196, 8197, 8198, 8199, 8200, 8201, 8202,
      8232, 8233, 8239, 8287, 12288}
    ensures IsControl(c) <==> c as int <= 31 || 127 <= c as int <= 159
  {
  }

  function TrimStart(s: string): string {
    if s != "" && IsSpace(s[0]) then TrimStart(s[1..]) else s
  }

  function TrimEnd(s: string): string {
    if s != "" && IsSpace(s[|s| - 1]) then TrimEnd(s[..|s| - 1]) else s
  }

  function Trim(s: string): string {
    TrimEnd(TrimStart(s))
  }

  /** Length in UTF-8 bytes. */
  function ByteLen(s: string): nat {
    if s == "" then 0
    else
      var n := s[0] as int;
      (if n < 0x80 then 1 else if n < 0x800 then 2 else if n < 0x10000 then 3 else 4) + ByteLen(s[1..])
  }

  const DEFAULT_NAMESPACE := "local"

  function Underscored(s: string): string {
    seq(|s|, i requires 0 <= i < |s| => if IsControl(s[i]) || IsSpace(s[i]) then '_' else s[i])
  }

  function NormalizeNamespace(s: string): string {
    if Trim(s) == "" then DEFAULT_NAMESPACE else Underscored(Trim(s))
  }

  predicate Untrimmable(s: string) {
    s != "" ==> !IsSpace(s[0]) && !IsSpace(s[|s| - 1])
  }

  lemma {:induction false} UntrimmableStays(s: string)
    requires Untrimmable(s)
    ensures Trim(s) == s
  {
  }

  lemma {:induction false} TrimStartTrims(s: string)
    ensures TrimStart(s) != "" ==> !IsSpace(TrimStart(s)[0])
  {
    if s != "" && IsSpace(s[0]) {
      TrimStartTrims(s[1..]);
    }
  }

  lemma {:induction false} TrimEndTrims(s: string)
    ensures TrimEnd(s) <= s && (TrimEnd(s) != "" ==> !IsSpace(TrimEnd(s)[|TrimEnd(s)| - 1]))
  {
    if s != "" && IsSpace(s[|s| - 1]) {
      TrimEndTrims(s[..|s| - 1]);
    }
  }

  lemma TrimTrims(s: string)
    ensures Untrimmable(Trim(s))
  {
    TrimStartTrims(s);
    TrimEndTrims(TrimStart(s));
  }

  /** All of `s` outside of `i..j` is white space. */
  ghost predicate SpaceAround(s: string, i: nat, j: nat) {
    && i <= j <= |s|
    && (forall k :: 0 <= k < i ==> IsSpace(s[k])) && (forall k :: j <= k < |s| ==> IsSpace(s[k]))
  }

  /** Trimming takes white space off both ends and nothing else. */
  lemma TrimTakesSpace(s: string)
    ensures exists i: nat, j: nat :: SpaceAround(s, i, j) && Trim(s) == s[i..j]
  {
    var i := TrimStartTakes(s);
    var u := s[i..];
    var j := TrimEndTakes(u);
    assert Trim(s) == u[..j] == s[i..i + j];
    forall k | i + j <= k < |s| ensures IsSpace(s[k]) {
      assert s[k] == u[k - i];
    }
    assert SpaceAround(s, i, i + j);
  }

  lemma {:induction false} TrimStartTakes(s: string) returns (i: nat)
    ensures i <= |s| && TrimStart(s) == s[i..] && forall k :: 0 <= k < i ==> IsSpace(s[k])
  {
    if s != "" && IsSpace(s[0]) {
      var n := TrimStartTakes(s[1..]);
      i := n + 1;
      forall k | 0 < k < i ensures IsSpace(s[k]) {
        assert s[k] == s[1..][k - 1];
      }
    } else {
      i := 0;
    }
  }

  lemma {:induction false} TrimEndTakes(s: string) returns (j: nat)
    ensures j <= |s| && TrimEnd(s) == s[..j] && forall k :: j <= k < |s| ==> IsSpace(s[k])
  {
    if s != "" && IsSpace(s[|s| - 1]) {
      j := TrimEndTakes(s[..|s| - 1]);
      assert s[..j] == s[..|s| - 1][..j];
      forall k | j <= k < |s| ensures IsSpace(s[k]) {
        assert k < |s| - 1 ==> s[k] == s[..|s| - 1][k];
      }
    } else {
      j := |s|;
    }
  }

  /** Only white space trims to nothing. */
  lemma TrimEmptyIff(s: string)
    ensures Trim(s) == "" <==> forall k :: 0 <= k < |s| ==> IsSpace(s[k])
  {
    TrimTakesSpace(s);
    TrimTrims(s);
    var i: nat, j: nat :| SpaceAround(s, i, j) && Trim(s) == s[i..j];
    if Trim(s) != "" {
      assert Trim(s)[0] == s[i] && !IsSpace(s[i]);
    }
  }

  /** The name is what is left between the white space at both ends, with an underscore for every control character
      and every white space within. */
  ghost predicate NormalizedFrom(s: string, i: nat, j: nat, name: string) {
    && SpaceAround(s, i, j) && i < j && !IsSpace(s[i]) && !IsSpace(s[j - 1]) && |name| == j - i
    && forall k :: i <= k < j ==> name[k - i] == if IsControl(s[k]) || IsSpace(s[k]) then '_' else s[k]
  }

  lemma NormalizeMeans(s: string)
    ensures (forall k :: 0 <= k < |s| ==> IsSpace(s[k])) ==> NormalizeNamespace(s) == "local"
    ensures (exists k :: 0 <= k < |s| && !IsSpace(s[k])) ==>
      exists i: nat, j: nat :: NormalizedFrom(s, i, j, NormalizeNamespace(s))
  {
    TrimEmptyIff(s);
    TrimTakesSpace(s);
    TrimTrims(s);
    var i: nat, j: nat :| SpaceAround(s, i, j) && Trim(s) == s[i..j];
    if Trim(s) != "" {
      assert Trim(s)[0] == s[i] && Trim(s)[|Trim(s)| - 1] == s[j - 1];
      assert NormalizedFrom(s, i, j, NormalizeNamespace(s));
    }
  }

  /** Normalising a namespace twice is the same as once, so a stored namespace is canonical. */
  lemma NormalizeIdempotent(s: string)
    ensures NormalizeNamespace(NormalizeNamespace(s)) == NormalizeNamespace(s)
  {
    var t := NormalizeNamespace(s);
    TrimTrims(s);
    UntrimmableStays(t);
    assert t == DEFAULT_NAMESPACE || t == Underscored(Trim(s));
    assert Underscored(t) == t;
  }

  // ---- UTF-8 (RFC 3629, section 3) ------------------------------------------------------------

  newtype byte = x: int | 0 <= x < 256

  function EncodeChar(c: char): (b: seq<byte>)
    ensures 1 <= |b| <= 4
  {
    var n := c as int;
    if n < 0x80 then [n as byte]
    else if n < 0x800 then [(0xC0 + n / 0x40) as byte, (0x80 + n % 0x40) as byte]
    else if n < 0x10000 then
      [(0xE0 + n / 0x1000) as byte, (0x80 + n / 0x40 % 0x40) as byte, (0x80 + n % 0x40) as byte]
    else
      [(0xF0 + n / 0x40000) as byte, (0x80 + n / 0x1000 % 0x40) as byte, (0x80 + n / 0x40 % 0x40) as byte, (0x80 + n % 0x40) as byte]
  }

  predicate Continues(b: byte) {
    0x80 <= b < 0xC0
  }

  /** A number is its digits in base 64. */
  lemma Digits(n: nat)
    ensures n == n / 0x40 * 0x40 + n % 0x40
    ensures n / 0x40 / 0x40 == n / 0x1000 && n / 0x40 == n / 0x1000 * 0x40 + n / 0x40 % 0x40
  {
  }

  ghost predicate TwoBytes(n: int, b: seq<byte>) {
    && |b| == 2 && 0xC0 <= b[0] < 0xE0 && Continues(b[1]) && n >= 0x80
    && n == (b[0] as int - 0xC0) * 0x40 + (b[1] as int - 0x80)
  }

  ghost predicate ThreeBytes(n: int, b: seq<byte>) {
    && |b| == 3 && 0xE0 <= b[0] < 0xF0 && Continues(b[1]) && Continues(b[2]) && n >= 0x800
    && n == ((b[0] as int - 0xE0) * 0x40 + (b[1] as int - 0x80)) * 0x40 + (b[2] as int - 0x80)
  }

  ghost predicate FourBytes(n: int, b: seq<byte>) {
    && |b| == 4 && 0xF0 <= b[0] && Continues(b[1]) && Continues(b[2]) && Continues(b[3]) && n >= 0x10000
    && n == (((b[0] as int - 0xF0) * 0x40 + (b[1] as int - 0x80)) * 0x40 + (b[2] as int - 0x80)) * 0x40 + (b[3] as int - 0x80)
  }

  /** The first byte tells how many bytes a character takes, and the bytes tell which character it is; no character is
      written longer than it has to be. */
  lemma Encoded(c: char)
    ensures var b, n := EncodeChar(c), c as int;
      (|b| == 1 && b[0] < 0x80 && n == b[0] as int) || TwoBytes(n, b) || ThreeBytes(n, b) || FourBytes(n, b)
  {
    var n := c as int;
    Digits(n);
    if n >= 0x10000 {
      Digits(n / 0x40);
      assert FourBytes(n, EncodeChar(c)) by {
        assert n / 0x1000 == n / 0x40000 * 0x40 + n / 0x1000 % 0x40;
      }
    } else if n >= 0x800 {
      assert ThreeBytes(n, EncodeChar(c));
    } else if n >= 0x80 {
      assert TwoBytes(n, EncodeChar(c));
    }
  }

  lemma EncodedApart(c: char, d: char, x: seq<byte>, y: seq<byte>)
    requires EncodeChar(c) + x == EncodeChar(d) + y
    ensures c == d && x == y
  {
    Encoded(c);
    Encoded(d);
    hide EncodeChar;
    var a, b := EncodeChar(c), EncodeChar(d);
    assert (a + x)[0] == a[0] && (b + y)[0] == b[0];
    assert |a| == |b|;
    forall i | 0 <= i < |a| ensures a[i] == b[i] {
      assert (a + x)[i] == a[i] && (b + y)[i] == b[i];
    }
    assert a == b;
    assert c as int == d as int;
    assert x == (a + x)[|a|..] == (b + y)[|b|..] == y;
  }

  /** Different texts have different bytes. */
  lemma {:induction false} Utf8Injective(s: string, t: string)
    requires Utf8(s) == Utf8(t)
    ensures s == t
  {
    hide EncodeChar;
    if s != "" && t != "" {
      EncodedApart(s[0], t[0], Utf8(s[1..]), Utf8(t[1..]));
      Utf8Injective(s[1..], t[1..]);
      assert s == [s[0]] + s[1..] && t == [t[0]] + t[1..];
    }
  }

  function Utf8(s: string): seq<byte> {
    if s == "" then [] else EncodeChar(s[0]) + Utf8(s[1..])
  }

  lemma {:induction false} Utf8Joins(a: string, b: string)
    ensures Utf8(a + b) == Utf8(a) + Utf8(b)
  {
    hide EncodeChar;
    if a == "" {
      assert a + b == b;
    } else {
      Utf8Joins(a[1..], b);
      assert (a + b)[1..] == a[1..] + b;
    }
  }

  lemma {:induction false} Utf8Length(s: string)
    ensures |Utf8(s)| == ByteLen(s) && ByteLen(s) >= |s|
  {
    if s != "" {
      Utf8Length(s[1..]);
    }
  }

  /** ASCII lower case, byte by byte. */
  function LowerByte(b: byte): byte {
    if 0x41 <= b <= 0x5A then b + 0x20 else b
  }

  function Lower(b: seq<byte>): seq<byte> {
    seq(|b|, i requires 0 <= i < |b| => LowerByte(b[i]))
  }

  /** The same byte, or the same ASCII letter in the other case. */
  predicate SameLetter(a: byte, b: byte) {
    a == b || (0x41 <= a <= 0x5A && b == a + 0x20) || (0x41 <= b <= 0x5A && a == b + 0x20)
  }

  lemma LowerIff(a: seq<byte>, b: seq<byte>)
    ensures Lower(a) == Lower(b) <==> |a| == |b| && forall i :: 0 <= i < |a| ==> SameLetter(a[i], b[i])
  {
    if Lower(a) == Lower(b) {
      assert |a| == |Lower(a)| == |Lower(b)| == |b|;
      forall i | 0 <= i < |a| ensures SameLetter(a[i], b[i]) {
        assert LowerByte(a[i]) == Lower(a)[i] == Lower(b)[i] == LowerByte(b[i]);
      }
    }
  }
}

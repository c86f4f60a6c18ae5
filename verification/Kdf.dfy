/** Password hashing and the stored `$5$` field. */
module Kdf {
  import opened Bytes
  import Sha256

  const ITERATIONS: nat := 10000
  const SALT_LEN: nat := 8
  const FIELD_LEN: nat := 84

  type Salt = s: seq<byte> | |s| == SALT_LEN witness [0, 0, 0, 0, 0, 0, 0, 0]

  /** `n` rounds of hashing the previous digest followed by the salt. */
  function Iterate(h: seq<byte>, salt: seq<byte>, n: nat): (r: seq<byte>)
    requires |h| == 32 && |salt| == SALT_LEN
    ensures |r| == 32
  {
    if n == 0 then h else Sha256.Digest(Iterate(h, salt, n - 1) + salt)
  }

  function HashPassword(password: seq<byte>, salt: seq<byte>): (r: seq<byte>)
    requires |salt| == SALT_LEN
    ensures |r| == 32
  {
    Iterate(Sha256.Digest(password), salt, ITERATIONS)
  }

  /** The old single-round scheme: password then salt, cut to 72 bytes. */
  function LegacyHash(password: seq<byte>, salt: seq<byte>): (r: seq<byte>)
    requires |salt| == SALT_LEN
    ensures |r| == 32
  {
    Sha256.Digest((password + salt)[..Min(|password| + SALT_LEN, 72)])
  }

  /** The key-derivation loop, hashing one 40-byte buffer in place. */
  method HashLoop(password: seq<byte>, salt: seq<byte>) returns (h: seq<byte>)
    requires |salt| == SALT_LEN
    ensures h == HashPassword(password, salt)
  {
    hide Sha256.Digest, Iterate;
    h := Sha256.Hash(password);
    var buf := new byte[40](_ => 0);
    CopyInto(buf, 0, h);
    CopyInto(buf, 32, salt);
    assert buf[..] == h + salt;
    ghost var first := h;
    NoRounds(first, salt);
    for i := 0 to ITERATIONS
      invariant fresh(buf) && |h| == 32 && buf.Length == 40
      invariant h == Iterate(first, salt, i) && buf[..] == h + salt
    {
      OneRound(first, salt, i);
      h := Sha256.Hash(buf[..]);
      CopyInto(buf, 0, h);
      assert buf[..] == h + salt;
    }
  }

  lemma NoRounds(h: seq<byte>, salt: seq<byte>)
    requires |h| == 32 && |salt| == SALT_LEN
    ensures Iterate(h, salt, 0) == h
  {
  }

  lemma OneRound(h: seq<byte>, salt: seq<byte>, n: nat)
    requires |h| == 32 && |salt| == SALT_LEN
    ensures Iterate(h, salt, n + 1) == Sha256.Digest(Iterate(h, salt, n) + salt)
  {
  }

  // ---- hexadecimal ----

  function HexDigit(n: nat): (c: byte)
    requires n < 16
    ensures IsHex(c) && c != 36
  {
    if n < 10 then 48 + n else 87 + n
  }

  predicate IsHex(c: byte) {
    48 <= c <= 57 || 97 <= c <= 102 || 65 <= c <= 70
  }

  /** Upper-case digits pass the digit test but decode to zero. */
  function HexVal(c: byte): (n: nat)
    ensures n < 16
  {
    if 48 <= c <= 57 then c - 48 else if 97 <= c <= 102 then c - 87 else 0
  }

  lemma HexInverse(n: nat)
    requires n < 16
    ensures HexVal(HexDigit(n)) == n
  {
  }

  function Hex(bs: seq<byte>): (h: seq<byte>)
    ensures |h| == 2 * |bs|
    ensures forall i :: 0 <= i < |h| ==> IsHex(h[i]) && h[i] != 36
  {
    seq(2 * |bs|, k requires 0 <= k < 2 * |bs| => HexDigit(if k % 2 == 0 then bs[k / 2] / 16 else bs[k / 2] % 16))
  }

  function Unhex(h: seq<byte>): (bs: seq<byte>)
    ensures |bs| == |h| / 2
  {
    seq(|h| / 2, i requires 0 <= i < |h| / 2 => 16 * HexVal(h[2 * i]) + HexVal(h[2 * i + 1]))
  }

  lemma HexRoundTrip(bs: seq<byte>)
    ensures Unhex(Hex(bs)) == bs
  {
    hide HexDigit, HexVal;
    var h := Hex(bs);
    forall i | 0 <= i < |bs|
      ensures Unhex(h)[i] == bs[i]
    {
      HexInverse(bs[i] / 16);
      HexInverse(bs[i] % 16);
      assert h[2 * i] == HexDigit(bs[i] / 16) && h[2 * i + 1] == HexDigit(bs[i] % 16);
    }
  }

  // ---- the stored field ----

  datatype Field = Field(salt: seq<byte>, hash: seq<byte>)

  const PREFIX: seq<byte> := [36, 53, 36]

  function FormatField(f: Field): (d: seq<byte>)
    requires |f.salt| == SALT_LEN && |f.hash| == 32
    ensures |d| == FIELD_LEN
  {
    PREFIX + Hex(f.salt) + [36] + Hex(f.hash)
  }

  /** First position of `c`, or the length. */
  function Index(s: seq<byte>, c: byte): (i: nat)
    ensures i <= |s| && (forall k :: 0 <= k < i ==> s[k] != c) && (i < |s| ==> s[i] == c)
  {
    if s == [] || s[0] == c then 0 else 1 + Index(s[1..], c)
  }

  predicate AllHex(s: seq<byte>) {
    forall i :: 0 <= i < |s| ==> IsHex(s[i])
  }

  function ParseField(d: seq<byte>): (f: Option<Field>)
    ensures f.Some? ==> |f.value.salt| == SALT_LEN && |f.value.hash| == 32
  {
    if |d| < FIELD_LEN || d[..3] != PREFIX then None
    else
      var rest := d[3..];
      if Index(rest, 36) != 16 then None
      else
        var salt, hash := rest[..16], rest[17..81];
        if AllHex(salt) && AllHex(hash) then Some(Field(Unhex(salt), Unhex(hash))) else None
  }

  /** A formatted field parses back, whatever the salt and hash. */
  lemma {:induction false} FieldRoundTrip(f: Field)
    requires |f.salt| == SALT_LEN && |f.hash| == 32
    ensures ParseField(FormatField(f)) == Some(f)
    ensures forall i :: 0 <= i < FIELD_LEN ==> FormatField(f)[i] != 0
  {
    hide Hex, Unhex, Index;
    var d := FormatField(f);
    var rest := d[3..];
    assert d[..3] == PREFIX;
    assert rest == Hex(f.salt) + [36] + Hex(f.hash);
    assert rest[..16] == Hex(f.salt) && rest[16] == 36 && rest[17..81] == Hex(f.hash);
    DollarAt(rest);
    HexRoundTrip(f.salt);
    HexRoundTrip(f.hash);
  }

  lemma DollarAt(rest: seq<byte>)
    requires |rest| > 16 && rest[16] == 36 && forall i :: 0 <= i < 16 ==> rest[i] != 36
    ensures Index(rest, 36) == 16
  {
    hide Index;
    assert Index(rest, 36) <= 16;
  }

  datatype Scheme = Iterated | Legacy | Unknown

  function Classify(password: seq<byte>, f: Field): (s: Scheme)
    requires |f.salt| == SALT_LEN
  {
    if HashPassword(password, f.salt) == f.hash then Iterated
    else if LegacyHash(password, f.salt) == f.hash then Legacy
    else Unknown
  }

  // ---- comparing and classifying ----

  /** Disjunction of the low `n` bits. */
  function OrBits(x: nat, y: nat, n: nat): (r: nat) {
    if n == 0 then 0 else 2 * OrBits(x / 2, y / 2, n - 1) + if x % 2 == 1 || y % 2 == 1 then 1 else 0
  }

  lemma {:induction false} OrIsZero(x: nat, y: nat, n: nat)
    requires x < Sha256.Pow2(n) && y < Sha256.Pow2(n)
    ensures OrBits(x, y, n) == 0 <==> x == 0 && y == 0
    decreases n
  {
    if n > 0 {
      OrIsZero(x / 2, y / 2, n - 1);
    }
  }

  lemma {:induction false} XorIsZero(x: nat, y: nat, n: nat)
    requires x < Sha256.Pow2(n) && y < Sha256.Pow2(n)
    ensures Sha256.XorBits(x, y, n) == 0 <==> x == y
    decreases n
  {
    if n > 0 {
      XorIsZero(x / 2, y / 2, n - 1);
    }
  }

  lemma {:induction false} OrBound(x: nat, y: nat, n: nat)
    ensures OrBits(x, y, n) < Sha256.Pow2(n)
    decreases n
  {
    if n > 0 {
      OrBound(x / 2, y / 2, n - 1);
    }
  }

  /** `r | (a ^ b)` on bytes. */
  function Mix(r: byte, a: byte, b: byte): (m: byte)
    ensures m == 0 <==> r == 0 && a == b
  {
    assert Sha256.Pow2(8) == 256;
    var x := Sha256.XorBits(a, b, 8);
    OrBound(r, x, 8);
    OrIsZero(r, x, 8);
    XorIsZero(a, b, 8);
    OrBits(r, x, 8)
  }

  lemma PrefixEqual(a: seq<byte>, b: seq<byte>, i: nat)
    requires i < |a| == |b|
    ensures a[..i + 1] == b[..i + 1] <==> a[..i] == b[..i] && a[i] == b[i]
  {
    assert a[..i + 1] == a[..i] + [a[i]] && b[..i + 1] == b[..i] + [b[i]];
  }

  /** The comparison that looks at every byte: differences are collected with or over exclusive or. */
  method ConstTimeEqual(a: seq<byte>, b: seq<byte>) returns (same: bool)
    ensures same <==> a == b
  {
    hide Mix;
    if |a| != |b| {
      return false;
    }
    var r: byte := 0;
    for i := 0 to |a|
      invariant r == 0 <==> a[..i] == b[..i]
    {
      PrefixEqual(a, b, i);
      r := Mix(r, a[i], b[i]);
    }
    assert a[..|a|] == a && b[..|b|] == b;
    same := r == 0;
  }

  /** The old scheme's buffer: password bytes, then salt bytes, as far as 72 bytes go. */
  method LegacyLoop(password: seq<byte>, salt: seq<byte>) returns (h: seq<byte>)
    requires |salt| == SALT_LEN
    ensures h == LegacyHash(password, salt)
  {
    hide Sha256.Digest;
    var combined: seq<byte> := [];
    for i := 0 to Min(|password|, 72)
      invariant combined == password[..i]
    {
      combined := combined + [password[i]];
    }
    ghost var front := combined;
    var j := 0;
    while j < |salt| && |combined| < 72
      invariant 0 <= j <= |salt| && combined == front + salt[..j] && |combined| <= 72
      invariant |combined| < 72 ==> front == password
    {
      combined := combined + [salt[j]];
      j := j + 1;
    }
    assert combined == (password + salt)[..Min(|password| + SALT_LEN, 72)];
    h := Sha256.Hash(combined);
  }

  /** Both schemes are tried, the current one first. */
  method ClassifyPassword(password: seq<byte>, f: Field) returns (s: Scheme)
    requires |f.salt| == SALT_LEN
    ensures s == Classify(password, f)
  {
    hide HashPassword, LegacyHash;
    var h := HashLoop(password, f.salt);
    var same := ConstTimeEqual(h, f.hash);
    if same {
      return Iterated;
    }
    h := LegacyLoop(password, f.salt);
    same := ConstTimeEqual(h, f.hash);
    s := if same then Legacy else Unknown;
  }
}

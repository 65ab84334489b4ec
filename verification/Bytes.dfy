/**
 Little-endian numbers in byte sequences, and NUL-terminated strings.
 */
module Bytes {
  import opened Base

  function Power(k: nat): (n: nat)
    ensures n > 0
  {
    if k == 0 then 1 else 256 * Power(k - 1)
  }

  function Encode(x: nat, k: nat): (s: seq<byte>)
    ensures |s| == k
    decreases x, k
  {
    if k == 0 then [] else [x % 256] + Encode(x / 256, k - 1)
  }

  function Decode(s: seq<byte>): (x: nat) {
    if s == [] then 0 else s[0] as int + 256 * Decode(s[1..])
  }

  /** A number that fits its bytes is read back as it was written. */
  lemma {:induction false} DecodeEncode(x: nat, k: nat)
    requires x < Power(k)
    ensures Decode(Encode(x, k)) == x
    decreases k
  {
    if k > 0 {
      DecodeEncode(x / 256, k - 1);
      assert Encode(x, k)[1..] == Encode(x / 256, k - 1);
    }
  }

  lemma Power8()
    ensures Power(8) == 0x1_0000_0000_0000_0000
  {
    assert Power(1) == 256 && Power(2) == 65536;
    assert Power(4) == 256 * Power(3) && Power(3) == 256 * Power(2);
    assert Power(6) == 256 * Power(5) && Power(5) == 256 * Power(4);
    assert Power(8) == 256 * Power(7) && Power(7) == 256 * Power(6);
  }

  // ---------------------------------------------------------------------
  // Memory
  // ---------------------------------------------------------------------

  /** The eight-byte word at `at`. */
  function WordAt(mem: seq<byte>, at: nat): (x: nat)
    requires at + 8 <= |mem|
  {
    Decode(mem[at..at + 8])
  }

  /** The bytes with `part` written over them from `at` on. */
  function Overwritten(s: seq<byte>, at: nat, part: seq<byte>): (r: seq<byte>)
    requires at + |part| <= |s|
    ensures |r| == |s|
  {
    s[..at] + part + s[at + |part|..]
  }

  /** The bytes stand at `at`. */
  ghost predicate Placed(blob: seq<byte>, at: nat, s: seq<byte>) {
    at + |s| <= |blob| && blob[at..at + |s|] == s
  }

  lemma PartOf(blob: seq<byte>, at: nat, before: seq<byte>, part: seq<byte>, rest: seq<byte>)
    requires Placed(blob, at, before + part + rest)
    ensures at + |before| + |part| <= |blob| && blob[at + |before|..at + |before| + |part|] == part
  {
    var all := before + part + rest;
    var found := blob[at + |before|..at + |before| + |part|];
    forall k | 0 <= k < |part|
      ensures found[k] == part[k]
    {
      assert blob[at..at + |all|][|before| + k] == all[|before| + k];
    }
  }

  ghost predicate NoNul(s: seq<byte>) { 0 !in s }

  /** The bytes from `at` up to the first NUL, if there is one. */
  function StringAt(mem: seq<byte>, at: nat): (r: Option<seq<byte>>)
    decreases |mem| - at
  {
    if at >= |mem| then None
    else if mem[at] == 0 then Some([])
    else match StringAt(mem, at + 1)
      case None => None
      case Some(s) => Some([mem[at]] + s)
  }

  /** The string and its NUL stand at `at`. */
  ghost predicate Stands(mem: seq<byte>, at: nat, s: seq<byte>) {
    at + |s| < |mem| && mem[at..at + |s|] == s && mem[at + |s|] == 0
  }

  lemma {:induction false} StringStands(mem: seq<byte>, at: nat, s: seq<byte>)
    requires NoNul(s) && Stands(mem, at, s)
    ensures StringAt(mem, at) == Some(s)
    decreases |s|
  {
    if s != [] {
      assert mem[at] == mem[at..at + |s|][0] == s[0];
      assert mem[at + 1..at + 1 + |s[1..]|] == mem[at..at + |s|][1..];
      StringStands(mem, at + 1, s[1..]);
      assert s == [s[0]] + s[1..];
    }
  }

  /** What StringAt finds is what stands there. */
  lemma {:induction false} StringIsThere(mem: seq<byte>, at: nat)
    requires StringAt(mem, at).Some?
    ensures NoNul(StringAt(mem, at).value) && Stands(mem, at, StringAt(mem, at).value)
    decreases |mem| - at
  {
    if mem[at] != 0 {
      StringIsThere(mem, at + 1);
      var s := StringAt(mem, at + 1).value;
      assert mem[at..at + 1 + |s|] == [mem[at]] + mem[at + 1..at + 1 + |s|];
    }
  }

  /** The byte-by-byte copy of n bytes from `at`. */
  method CopyBytes(bytes: seq<byte>, at: nat, n: nat) returns (s: seq<byte>)
    requires at + n <= |bytes|
    ensures s == bytes[at..at + n]
  {
    s := [];
    var copied := 0;
    while copied < n
      invariant 0 <= copied <= n && s == bytes[at..at + copied]
    {
      s := s + [bytes[at + copied]];
      copied := copied + 1;
    }
  }
}

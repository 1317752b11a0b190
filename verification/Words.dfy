/** Bytes, and the eight-byte little-endian words in which pointers, counters and record
    fields are kept. Everything above this module reads and writes memory only through
    Word and PutWord. */
module Words {

  type byte = x: int | 0 <= x < 256

  const WORD: nat := 8
  const TWO64: nat := 0x1_0000_0000_0000_0000
  const TWO32: nat := 0x1_0000_0000

  ghost function Pow256(n: nat): (p: nat)
    ensures p > 0
  {
    if n == 0 then 1 else 256 * Pow256(n - 1)
  }

  lemma Pow256Values()
    ensures Pow256(4) == TWO32 && Pow256(8) == TWO64
  {
    assert Pow256(2) == 0x1_0000;
    assert Pow256(4) == 0x1_0000 * 0x1_0000;
    assert Pow256(6) == 0x1_0000 * 0x1_0000 * 0x1_0000;
  }

  /** The n low-order bytes of v, lowest first. */
  function Encode(v: nat, n: nat): (s: seq<byte>)
    ensures |s| == n
  {
    if n == 0 then [] else [v % 256] + Encode(v / 256, n - 1)
  }

  /** The value of a little-endian byte string. */
  function Decode(s: seq<byte>): nat {
    if s == [] then 0 else s[0] + 256 * Decode(s[1..])
  }

  lemma {:induction false} DecodeEncode(v: nat, n: nat)
    requires v < Pow256(n)
    ensures Decode(Encode(v, n)) == v
  {
    if n > 0 {
      DecodeEncode(v / 256, n - 1);
      assert Encode(v, n)[1..] == Encode(v / 256, n - 1);
    }
  }

  lemma {:induction false} DecodeBound(s: seq<byte>)
    ensures Decode(s) < Pow256(|s|)
  {
    if s != [] {
      DecodeBound(s[1..]);
    }
  }

  /** The word whose first byte is at offset o of memory m. */
  function Word(m: seq<byte>, o: nat): nat
    requires o + WORD <= |m|
  {
    Decode(m[o..o + WORD])
  }

  /** Addition of unsigned 64-bit words. */
  function AddWord(a: nat, b: nat): nat {
    (a + b) % TWO64
  }

  /** Adding in two steps, wrapping each time, is adding at once. */
  lemma AddWordTwice(a: nat, b: nat, c: nat)
    ensures AddWord(AddWord(a, b), c) == AddWord(a, b + c)
  {
    var x := a + b;
    var q, r := x / TWO64, (x % TWO64 + c) / TWO64;
    assert x + c == (q + r) * TWO64 + (x % TWO64 + c) % TWO64;
  }

  /** Memory m after the word v is stored at offset o. */
  function PutWord(m: seq<byte>, o: nat, v: nat): (r: seq<byte>)
    requires o + WORD <= |m|
    ensures |r| == |m|
    ensures forall j :: 0 <= j < |m| ==> r[j] == if o <= j < o + WORD then Encode(v, WORD)[j - o] else m[j]
  {
    seq(|m|, j requires 0 <= j < |m| => if o <= j < o + WORD then Encode(v, WORD)[j - o] else m[j])
  }

  /** Storing into one of two joined pieces of memory. */
  lemma PutWordJoined(a: seq<byte>, b: seq<byte>, p: nat, v: nat)
    ensures p + WORD <= |a| ==> PutWord(a + b, p, v) == PutWord(a, p, v) + b
    ensures p + WORD <= |b| ==> PutWord(a + b, |a| + p, v) == a + PutWord(b, p, v)
  {}

  /** Reading from one of them. */
  lemma WordJoined(a: seq<byte>, b: seq<byte>, p: nat)
    ensures p + WORD <= |a| ==> Word(a + b, p) == Word(a, p)
    ensures p + WORD <= |b| ==> Word(a + b, |a| + p) == Word(b, p)
  {
    if p + WORD <= |a| {
      assert (a + b)[p..p + WORD] == a[p..p + WORD];
    }
    if p + WORD <= |b| {
      assert (a + b)[|a| + p..|a| + p + WORD] == b[p..p + WORD];
    }
  }

  /** Stores the eight bytes of v in an array. */
  method Poke(mem: array<byte>, p: nat, v: nat)
    requires p + WORD <= mem.Length
    modifies mem
    ensures mem[..] == PutWord(old(mem[..]), p, v)
  {
    var b := Encode(v, WORD);
    forall i | p <= i < p + WORD {
      mem[i] := b[i - p];
    }
  }

  lemma WordBound(m: seq<byte>, o: nat)
    requires o + WORD <= |m|
    ensures Word(m, o) < TWO64
  {
    DecodeBound(m[o..o + WORD]);
    Pow256Values();
  }

  /** A stored word is read back. */
  lemma GetPut(m: seq<byte>, o: nat, v: nat)
    requires o + WORD <= |m| && v < TWO64
    ensures Word(PutWord(m, o, v), o) == v
  {
    Pow256Values();
    DecodeEncode(v, WORD);
    assert PutWord(m, o, v)[o..o + WORD] == Encode(v, WORD);
  }

  /** Words that do not overlap the stored one keep their value. */
  lemma GetPutOther(m: seq<byte>, o: nat, v: nat, p: nat)
    requires o + WORD <= |m| && p + WORD <= |m|
    requires o + WORD <= p || p + WORD <= o
    ensures Word(PutWord(m, o, v), p) == Word(m, p)
  {
    assert PutWord(m, o, v)[p..p + WORD] == m[p..p + WORD];
  }

  lemma {:induction false} DecodeZero(s: seq<byte>)
    requires forall j :: 0 <= j < |s| ==> s[j] == 0
    ensures Decode(s) == 0
  {
    if s != [] {
      DecodeZero(s[1..]);
    }
  }

  /** A value has one byte string of each length. */
  lemma {:induction false} SameWord(s: seq<byte>, t: seq<byte>)
    requires |s| == |t| && Decode(s) == Decode(t)
    ensures s == t
  {
    if s != [] {
      SameWord(s[1..], t[1..]);
      assert s == [s[0]] + s[1..] && t == [t[0]] + t[1..];
    }
  }
}

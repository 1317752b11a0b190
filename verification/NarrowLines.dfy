/** Lines too narrow for what is kept in them: when a list of pointers survives its own
    construction, and when a counter touches a link. */
module NarrowLines {
  import opened Arithmetic
  import opened Words
  import opened MemLayout
  import opened Chase
  import opened Orders
  import opened Shuffle
  import opened ReadModifyWrite

  /** The n lines in address order. */
  ghost function Lines(n: nat, line: nat): (r: seq<nat>)
    ensures |r| == n && forall k :: 0 <= k < n ==> r[k] == k * line
  {
    Scaled(Identity(n), line)
  }

  /** One allocation that starts at a multiple of 256, as one that starts at a page does. */
  ghost predicate OnePart(l: Layout) {
    l.Valid() && l.size2 == 0 && l.addr1 % 256 == 0
  }

  lemma WordBytes(m: seq<byte>, o: nat, v: nat)
    requires o + WORD <= |m| && v < TWO64
    ensures Word(m, o) == v <==> m[o..o + WORD] == Encode(v, WORD)
  {
    Pow256Values();
    DecodeEncode(v, WORD);
    if Word(m, o) == v {
      SameWord(m[o..o + WORD], Encode(v, WORD));
    }
  }

  lemma WordByte(m: seq<byte>, o: nat, v: nat, i: nat)
    requires o + WORD <= |m| && v < TWO64 && Word(m, o) == v && i < WORD
    ensures m[o + i] == Encode(v, WORD)[i]
  {
    WordBytes(m, o, v);
    assert m[o..o + WORD][i] == m[o + i];
  }

  /** Addresses less than 256 bytes after the base differ from it in the lowest byte only. */
  lemma EncodeNear(b: nat, a: nat, i: nat)
    requires b % 256 == 0 && a < 256 && i < WORD
    ensures Encode(b + a, WORD)[i] == if i == 0 then a else Encode(b, WORD)[i]
  {
    DivModUnique(b + a, 256, b / 256, a);
  }

  /** Where three lines in a row hold pointers to the first 256 bytes, the pointers of the
      second and the third are the same: each line's first byte is a byte of the base. */
  lemma ThreeInARow(m: seq<byte>, o: nat, line: nat, b: nat, x: nat, y: nat, z: nat)
    requires 0 < line < WORD && o + 2 * line + WORD <= |m|
    requires b % 256 == 0 && b + 256 <= TWO64 && x < 256 && y < 256 && z < 256
    requires Word(m, o) == b + x && Word(m, o + line) == b + y && Word(m, o + 2 * line) == b + z
    ensures y == z
  {
    hide Encode, Word;
    WordByte(m, o, b + x, line);
    WordByte(m, o + line, b + y, 0);
    WordByte(m, o + line, b + y, line);
    WordByte(m, o + 2 * line, b + z, 0);
    EncodeNear(b, x, line);
    EncodeNear(b, y, 0);
    EncodeNear(b, y, line);
    EncodeNear(b, z, 0);
  }

  // ---------------------------------------------------------------- stride_init

  /** Three narrow lines or more: no memory at all holds the list that stride_init is to
      make. */
  lemma ThreeNarrowLinesFail(l: Layout, m: seq<byte>, n: nat, line: nat)
    requires OnePart(l) && |m| == l.Size() && 0 < line < WORD && n >= 3 && Slots(l, Lines(n, line), WORD)
    ensures !Intact(l, m, Lines(n, line))
  {
    var r := Lines(n, line);
    assert r[0] == 0 && r[1] == line && r[2] == 2 * line;
    assert n > 3 ==> r[3] == 3 * line;
    if Intact(l, m, r) {
      ThreeInARow(m, 0, line, l.addr1, line, 2 * line, if n == 3 then 0 else 3 * line);
    }
  }

  /** The bytes of the base repeat with this period. */
  predicate Periodic(b: nat, line: nat) {
    forall i :: line <= i < WORD ==> Encode(b, WORD)[i] == Encode(b, WORD)[i - line]
  }

  lemma TwoNarrowLines(l: Layout, m0: seq<byte>, line: nat)
    requires OnePart(l) && |m0| == l.Size() && 0 < line < WORD && Slots(l, Lines(2, line), WORD)
    ensures Intact(l, Stored(l, m0, Lines(2, line), 2), Lines(2, line)) <==> Periodic(l.addr1, line)
  {
    hide Word, Encode;
    var b, r := l.addr1, Lines(2, line);
    assert r[0] == 0 && r[1] == line;
    var m1 := PutWord(m0, 0, b + line);
    var m2 := PutWord(m1, line, b);
    assert Stored(l, m0, r, 0) == m0 && l.AddrOf(r[Succ(0, 2)]) == b + line && l.AddrOf(r[Succ(1, 2)]) == b;
    assert Stored(l, m0, r, 1) == m1;
    assert Stored(l, m0, r, 2) == m2;
    GetPut(m1, line, b);
    WordBytes(m2, 0, b + line);
    var kept, wanted := m2[0..WORD], Encode(b + line, WORD);
    forall i | 0 <= i < WORD
      ensures kept[i] == wanted[i] <==> i < line || Encode(b, WORD)[i] == Encode(b, WORD)[i - line]
    {
      EncodeNear(b, line, i);
    }
    if Periodic(b, line) {
      assert kept == wanted;
    } else {
      var i :| line <= i < WORD && Encode(b, WORD)[i] != Encode(b, WORD)[i - line];
      assert kept[i] != wanted[i];
    }
  }

  /** When stride_init leaves a list, for lines of any size: if they hold a pointer; or there
      is one line; or there are two and the bytes of the base happen to repeat. */
  lemma StrideListIntact(l: Layout, m0: seq<byte>, n: nat, line: nat)
    requires OnePart(l) && |m0| == l.Size() && 0 < line && 0 < n && Slots(l, Lines(n, line), WORD)
    ensures Intact(l, Stored(l, m0, Lines(n, line), n), Lines(n, line))
       <==> line >= WORD || n == 1 || (n == 2 && Periodic(l.addr1, line))
  {
    var r := Lines(n, line);
    if line >= WORD {
      ScaledSpaced(Identity(n), line);
      assert Ring(l, r);
      StoredLinks(l, m0, r, n);
    } else if n >= 3 {
      ThreeNarrowLinesFail(l, Stored(l, m0, r, n), n, line);
    } else if n == 2 {
      TwoNarrowLines(l, m0, line);
    } else {
      assert r[0] == 0 && Stored(l, m0, r, 0) == m0;
      GetPut(m0, 0, l.addr1);
    }
  }

  /** For instance 256 lines of four bytes, the first half of a region of 2 KB. */
  lemma FourByteLinesFail(m: seq<byte>)
    requires |m| == 2048
    ensures var l := Layout(4096, 2048, 0, 0);
      && StrideCount(1024, 4) == 256 && Slots(l, Lines(256, 4), WORD)
      && !Intact(l, Stored(l, m, Lines(256, 4), 256), Lines(256, 4))
  {
    hide Intact, Stored;
    StrideListIntact(Layout(4096, 2048, 0, 0), m, 256, 4);
  }

  /** And if the active size is the whole region, the last store of narrow lines always runs
      over its end. */
  lemma NarrowLinesLeaveTheRegion(size: nat, line: nat)
    requires 0 < line < WORD && 0 < size
    ensures !Slots(Layout(4096, size, 0, 0), Lines(StrideCount(size, line), line), WORD)
  {
    var n := StrideCount(size, line);
    StrideCountBounds(size, line);
    MulSucc(n - 1, line);
    assert Lines(n, line)[n - 1] == (n - 1) * line;
  }

  // ---------------------------------------------------------------- any order

  /** The line whose pointer leads to line y. */
  lemma Predecessor(l: Layout, m: seq<byte>, order: seq<nat>, n: nat, line: nat, y: nat) returns (x: nat)
    requires OnePart(l) && |m| == l.Size() && Slots(l, order, WORD) && Intact(l, m, order)
    requires 0 < line && AnyLineOrder(order, n, line) && y < n
    ensures x < n && x * line + WORD <= l.Size() && Word(m, x * line) == l.addr1 + y * line
  {
    var perm :| FromZero(perm, n) && order == Scaled(perm, line);
    PermutationOnto(perm, n, y);
    var p :| 0 <= p < n && perm[p] == y;
    var k := if p == 0 then n - 1 else p - 1;
    assert Succ(k, n) == p;
    x := perm[k];
    assert order[k] == x * line && order[p] == y * line;
  }

  /** The line to which the pointer of line x leads. */
  lemma Successor(l: Layout, m: seq<byte>, order: seq<nat>, n: nat, line: nat, x: nat) returns (y: nat)
    requires OnePart(l) && |m| == l.Size() && Slots(l, order, WORD) && Intact(l, m, order)
    requires 0 < line && AnyLineOrder(order, n, line) && x < n
    ensures y < n && x * line + WORD <= l.Size() && y * line + WORD <= l.Size()
    ensures Word(m, x * line) == l.addr1 + y * line
  {
    var perm :| FromZero(perm, n) && order == Scaled(perm, line);
    PermutationOnto(perm, n, x);
    var k :| 0 <= k < n && perm[k] == x;
    y := perm[Succ(k, n)];
    assert order[k] == x * line && order[Succ(k, n)] == y * line;
  }

  /** The upper half of an address in a region of at most 4 GB is one of two. */
  lemma UpperByte(b: nat, o: nat, i: nat)
    requires o < TWO32 && 4 <= i < WORD
    ensures Encode(b + o, WORD)[i] == Encode(b / TWO32, 4)[i - 4]
         || Encode(b + o, WORD)[i] == Encode(b / TWO32 + 1, 4)[i - 4]
  {
    hide Encode;
    DropBytes(b + o, i);
    NextQuotient(b, o, TWO32);
    if (b + o) / TWO32 == b / TWO32 {
      assert Encode((b + o) / TWO32, 4) == Encode(b / TWO32, 4);
    } else {
      assert Encode((b + o) / TWO32, 4) == Encode(b / TWO32 + 1, 4);
    }
  }

  lemma NextQuotient(b: nat, o: nat, n: nat)
    requires o < n
    ensures (b + o) / n == b / n || (b + o) / n == b / n + 1
  {
    var d := b % n + o;
    assert b == (b / n) * n + b % n;
    if d < n {
      DivModUnique(b + o, n, b / n, d);
    } else {
      MulSucc(b / n, n);
      DivModUnique(b + o, n, b / n + 1, d - n);
    }
  }

  lemma DropBytes(v: nat, i: nat)
    requires 4 <= i < WORD
    ensures Encode(v, WORD)[i] == Encode(v / TWO32, 4)[i - 4]
  {
    FourDivisions(v);
    assert Encode(v, 8)[i] == Encode(v / 256, 7)[i - 1];
    assert Encode(v / 256, 7)[i - 1] == Encode(v / 256 / 256, 6)[i - 2];
    assert Encode(v / 256 / 256, 6)[i - 2] == Encode(v / 256 / 256 / 256, 5)[i - 3];
    assert Encode(v / 256 / 256 / 256, 5)[i - 3] == Encode(v / 256 / 256 / 256 / 256, 4)[i - 4];
  }

  lemma FourDivisions(v: nat)
    ensures v / 256 / 256 / 256 / 256 == v / TWO32
  {}

  /** Of two overlapping pointers, q bytes apart: the lowest byte of the later one lies in the
      upper half of the earlier one. */
  lemma OverlappingByte(l: Layout, m: seq<byte>, p: nat, q: nat, a: nat, b: nat)
    requires OnePart(l) && |m| == l.Size() <= TWO32 && 4 <= q < WORD && q <= p && p + WORD <= l.Size()
    requires a < l.Size() && b < l.Size() && Word(m, p) == l.addr1 + a && Word(m, p - q) == l.addr1 + b
    ensures a % 256 == Encode(l.addr1 / TWO32, 4)[q - 4] || a % 256 == Encode(l.addr1 / TWO32 + 1, 4)[q - 4]
  {
    hide Word, Encode;
    WordByte(m, p - q, l.addr1 + b, q);
    WordByte(m, p, l.addr1 + a, 0);
    LowestByte(l.addr1, a);
    UpperByte(l.addr1, b, q);
  }

  lemma LowestByte(b: nat, o: nat)
    requires b % 256 == 0
    ensures Encode(b + o, WORD)[0] == o % 256
  {
    DivModUnique(b + o, 256, b / 256 + o / 256, o % 256);
  }

  /** Of three lines in a row at least one does not start at either of two low bytes. */
  lemma OddOneOut(line: nat, y: nat, c: nat, d: nat) returns (z: nat)
    requires 0 < line < WORD
    ensures y <= z < y + 3 && (z * line) % 256 != c && (z * line) % 256 != d
  {
    var a := y * line;
    assert (y + 1) * line == a + line && (y + 2) * line == a + 2 * line;
    z := if a % 256 != c && a % 256 != d then y
         else if (a + line) % 256 != c && (a + line) % 256 != d then y + 1
         else y + 2;
  }

  /** More distinct numbers than there are below k: one is not below it. */
  lemma OneNotBelow(s: seq<nat>, k: nat) returns (i: nat)
    requires Distinct(s) && |s| > k
    ensures i < |s| && s[i] >= k
  {
    DistinctCardinality(s);
    RangeCardinality(k);
    if Elements(s) <= Range(k) {
      SubsetCardinality(Elements(s), Range(k));
    }
    var x :| x in Elements(s) && x !in Range(k);
    i :| 0 <= i < |s| && s[i] == x;
  }

  /** The lines whose pointers lead to eight lines that lie three apart at most, none of which
      starts at one of two low bytes. */
  lemma EightSources(l: Layout, m: seq<byte>, order: seq<nat>, n: nat, line: nat, c: nat, d: nat)
    returns (from: seq<nat>, to: seq<nat>)
    requires OnePart(l) && |m| == l.Size() && Slots(l, order, WORD) && Intact(l, m, order)
    requires 0 < line < WORD && AnyLineOrder(order, n, line) && n >= 24
    ensures |from| == |to| == 8 && Distinct(from)
    ensures forall i :: 0 <= i < 8 ==> Leads(l, m, n, line, from[i], to[i])
    ensures forall i :: 0 <= i < 8 ==> (to[i] * line) % 256 != c && (to[i] * line) % 256 != d
  {
    hide Word, Intact, Slots, AnyLineOrder;
    from, to := [], [];
    while |to| < 8
      invariant |from| == |to| <= 8
      invariant forall i :: 0 <= i < |to| ==> 3 * i <= to[i] < 3 * i + 3
      invariant forall i :: 0 <= i < |to| ==> Leads(l, m, n, line, from[i], to[i])
      invariant forall i :: 0 <= i < |to| ==> (to[i] * line) % 256 != c && (to[i] * line) % 256 != d
      decreases 8 - |to|
    {
      var y := OddOneOut(line, 3 * |to|, c, d);
      var x := Predecessor(l, m, order, n, line, y);
      from, to := from + [x], to + [y];
    }
    forall i, j | 0 <= i < j < 8 ensures from[i] != from[j] {
      assert to[i] < to[j];
      MulSpaced(to[i], to[j], line);
      assert Leads(l, m, n, line, from[i], to[i]) && Leads(l, m, n, line, from[j], to[j]);
    }
  }

  /** The pointer of line x leads to line y. */
  ghost predicate Leads(l: Layout, m: seq<byte>, n: nat, line: nat, x: nat, y: nat) {
    x < n && y < n && x * line + WORD <= |m| && Word(m, x * line) == l.addr1 + y * line
  }

  /** Three narrow lines or more, in whatever order: no memory holds the list, in a region of
      up to 4 GB. */
  lemma NoNarrowList(l: Layout, m: seq<byte>, order: seq<nat>, n: nat, line: nat)
    requires OnePart(l) && |m| == l.Size() <= TWO32 && Slots(l, order, WORD)
    requires 0 < line < WORD && n >= 3 && AnyLineOrder(order, n, line)
    ensures !Intact(l, m, order)
  {
    if n < 24 {
      FewNarrowLines(l, m, order, n, line);
    } else {
      ManyNarrowLines(l, m, order, n, line);
    }
  }

  lemma FewNarrowLines(l: Layout, m: seq<byte>, order: seq<nat>, n: nat, line: nat)
    requires OnePart(l) && |m| == l.Size() && Slots(l, order, WORD)
    requires 0 < line < WORD && 3 <= n < 24 && AnyLineOrder(order, n, line)
    ensures !Intact(l, m, order)
  {
    hide Word, Intact, Slots, AnyLineOrder;
    if Intact(l, m, order) {
      var x := Successor(l, m, order, n, line, 0);
      var y := Successor(l, m, order, n, line, 1);
      var z := Successor(l, m, order, n, line, 2);
      MulMono(x, 23, line);
      MulMono(y, 23, line);
      MulMono(z, 23, line);
      ThreeInARow(m, 0, line, l.addr1, x * line, y * line, z * line);
      SameSource(l, m, order, n, line, 1, y, 2, z);
    }
  }

  /** Two lines do not lead to the same line. */
  lemma SameSource(l: Layout, m: seq<byte>, order: seq<nat>, n: nat, line: nat, x: nat, y: nat, u: nat, v: nat)
    requires OnePart(l) && |m| == l.Size() && Slots(l, order, WORD) && Intact(l, m, order)
    requires 0 < line && AnyLineOrder(order, n, line)
    requires Leads(l, m, n, line, x, y) && Leads(l, m, n, line, u, v) && y * line == v * line
    ensures x == u
  {
    var perm :| FromZero(perm, n) && order == Scaled(perm, line);
    PermutationOnto(perm, n, x);
    PermutationOnto(perm, n, u);
    var i :| 0 <= i < n && perm[i] == x;
    var k :| 0 <= k < n && perm[k] == u;
    assert order[i] == x * line && order[k] == u * line;
    var p, q := perm[Succ(i, n)], perm[Succ(k, n)];
    assert p * line == q * line;
    assert p == q by {
      if p < q {
        MulSpaced(p, q, line);
      } else if q < p {
        MulSpaced(q, p, line);
      }
    }
  }

  lemma ManyNarrowLines(l: Layout, m: seq<byte>, order: seq<nat>, n: nat, line: nat)
    requires OnePart(l) && |m| == l.Size() <= TWO32 && Slots(l, order, WORD)
    requires 0 < line < WORD && n >= 24 && AnyLineOrder(order, n, line)
    ensures !Intact(l, m, order)
  {
    hide Word, Intact, Slots, AnyLineOrder, Encode;
    if Intact(l, m, order) {
      var r := LinesReached(line);
      var c, d := Encode(l.addr1 / TWO32, 4)[r * line - 4], Encode(l.addr1 / TWO32 + 1, 4)[r * line - 4];
      var from, to := EightSources(l, m, order, n, line, c, d);
      var i := OneNotBelow(from, r);
      assert Leads(l, m, n, line, from[i], to[i]);
      var z := Successor(l, m, order, n, line, from[i] - r);
      var w := Successor(l, m, order, n, line, to[i]);
      assert (from[i] - r) * line == from[i] * line - r * line;
      OverlappingByte(l, m, from[i] * line, r * line, to[i] * line, z * line);
    }
  }

  /** How many lines further on the bytes of a pointer reach. */
  lemma LinesReached(line: nat) returns (r: nat)
    requires 0 < line < WORD
    ensures r <= 7 && 4 <= r * line < WORD
  {
    r := if line == 1 then 7 else if line <= 3 then 6 / line else 1;
  }

  // ---------------------------------------------------------------- counters

  /** Among n lines some counter shares a byte with some link. */
  predicate CounterHits(n: nat, line: nat) {
    || (n > 1 && 24 < line < 40)
    || (n > 2 && 12 < line < 20)
    || (n > 3 && 8 < line <= 13)
    || (n > 4 && line < 10)
  }

  lemma CountersClearOfLinks(n: nat, line: nat)
    requires WORD <= line
    ensures CountersClear(Lines(n, line)) <==> !CounterHits(n, line)
  {
    var r := Lines(n, line);
    if CounterHits(n, line) {
      var d := if n > 1 && 24 < line < 40 then 1 else if n > 2 && 12 < line < 20 then 2
               else if n > 3 && 8 < line <= 13 then 3 else 4;
      assert r[0] == 0 && r[d] == d * line;
    } else {
      forall i, j | 0 <= i < n && 0 <= j < n
        ensures r[i] + COUNTER + WORD <= r[j] || r[j] + WORD <= r[i] + COUNTER
      {
        LineDistance(n, line, i, j);
      }
    }
  }

  lemma LineDistance(n: nat, line: nat, i: nat, j: nat)
    requires WORD <= line && i < n && j < n && !CounterHits(n, line)
    ensures i * line + COUNTER + WORD <= j * line || j * line + WORD <= i * line + COUNTER
  {
    if j <= i {
      MulMono(j, i, line);
    } else {
      var d := j - i;
      assert j * line == i * line + d * line;
      if d >= 5 {
        MulMono(5, d, line);
      }
      assert d == 1 || d == 2 || d == 3 || d == 4 || d >= 5;
    }
  }

  /** When a list of evenly spaced lines can be counted on: if the last counter is inside the
      region, links do not overlap, and no counter touches a link. */
  lemma CountableLines(l: Layout, n: nat, line: nat)
    requires OnePart(l) && 0 < line && 0 < n
    ensures CountedRing(l, Lines(n, line))
       <==> (n - 1) * line + LINE_MIN <= l.Size() && (n == 1 || (WORD <= line && !CounterHits(n, line)))
  {
    var r := Lines(n, line);
    assert r[n - 1] == (n - 1) * line;
    forall k | 0 <= k < n ensures r[k] <= r[n - 1] {
      MulMono(k, n - 1, line);
    }
    if n > 1 {
      assert r[0] == 0 && r[1] == line;
    }
    if WORD <= line {
      CountersClearOfLinks(n, line);
      ScaledSpaced(Identity(n), line);
      SpacedWider(r, WORD, line);
    }
  }

  /** If the lines fill the region, that is exactly when a line holds a link and a counter. */
  lemma FilledRegionCounts(l: Layout, n: nat, line: nat)
    requires OnePart(l) && 0 < line && 0 < n && l.Size() == n * line
    ensures CountedRing(l, Lines(n, line)) <==> LINE_MIN <= line
  {
    CountableLines(l, n, line);
    MulSucc(n - 1, line);
  }

  /** Where a counter starts inside a link, the first increment already breaks the link: lines
      of 32 bytes, for instance, count in the link of the next line. */
  lemma CounterBreaksLink(l: Layout, m: seq<byte>, order: seq<nat>, i: nat, j: nat)
    requires l.Valid() && |m| == l.Size() && Slots(l, order, LINE_MIN) && i < |order| && j < |order|
    requires order[j] <= order[i] + COUNTER < order[j] + WORD
    ensures Word(Bump(l, m, l.AddrOf(order[i])), order[j]) != Word(m, order[j])
  {
    var o, p := order[i] + COUNTER, order[j];
    AddrRoundTrip(l, order[i]);
    var v := Word(m, o);
    var m' := PutWord(m, o, AddWord(v, 1));
    assert Bump(l, m, l.AddrOf(order[i])) == m';
    LowByteChanges(m, o);
    assert m'[p..p + WORD][o - p] != m[p..p + WORD][o - p];
    if Word(m', p) == Word(m, p) {
      SameWord(m'[p..p + WORD], m[p..p + WORD]);
    }
  }

  lemma LowByteChanges(m: seq<byte>, o: nat)
    requires o + WORD <= |m|
    ensures PutWord(m, o, AddWord(Word(m, o), 1))[o] != m[o]
  {
    var s := m[o..o + WORD];
    var rest := Decode(s[1..]);
    assert Word(m, o) == s[0] + 256 * rest;
    LowByteOfSum(s[0], rest);
    assert Encode(AddWord(Word(m, o), 1), WORD)[0] == AddWord(Word(m, o), 1) % 256;
  }

  lemma LowByteOfSum(a: byte, rest: nat)
    ensures ((a + 256 * rest + 1) % TWO64) % 256 == (a + 1) % 256 != a
  {
    var x := a + 256 * rest + 1;
    assert x == (x / TWO64) * TWO64 + x % TWO64;
  }

  lemma LinesOf32Break(l: Layout, m: seq<byte>)
    requires OnePart(l) && |m| == l.Size() && 32 + LINE_MIN <= l.Size()
    ensures Word(Bump(l, m, l.AddrOf(0)), 32) != Word(m, 32)
  {
    assert Lines(2, 32)[0] == 0 && Lines(2, 32)[1] == 32;
    CounterBreaksLink(l, m, Lines(2, 32), 0, 1);
  }
}

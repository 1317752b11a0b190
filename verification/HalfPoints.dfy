/** The dual stream of thread_rmw from whatever address getHalfPoint answers, a line of the
    list or not. */
module HalfPoints {
  import opened Arithmetic
  import opened Words
  import opened MemLayout
  import opened Chase
  import opened Orders
  import opened ReadModifyWrite
  import opened Coverage
  import opened RmwWork
  import opened Shuffle

  /** The addresses of the lines that the first k turns update. */
  ghost function Updates(l: Layout, c: Cursor, k: nat): (u: seq<nat>)
    ensures |u| == 2 * k
  {
    if k == 0 then [] else
      var d := Run(l, DualStream, c, k - 1);
      Updates(l, c, k - 1) + [d.p, d.p2]
  }

  ghost function Occurrences(u: seq<nat>, a: nat): nat {
    if u == [] then 0 else Occurrences(u[..|u| - 1], a) + One(u[|u| - 1] == a)
  }

  lemma OccurrencesOfTwo(u: seq<nat>, x: nat, y: nat, a: nat)
    ensures Occurrences(u + [x, y], a) == Occurrences(u, a) + One(x == a) + One(y == a)
  {
    assert (u + [x, y])[..|u| + 1] == u + [x];
    assert (u + [x])[..|u|] == u;
  }

  lemma {:induction false} OccursOnce(u: seq<nat>, a: nat)
    ensures Occurrences(u, a) > 0 <==> a in u
  {
    if u != [] {
      OccursOnce(u[..|u| - 1], a);
    }
  }

  /** From a half point on the list, each line is updated as often as its tally says. */
  lemma {:induction false} UpdatesAreTallied(l: Layout, c: Cursor, order: seq<nat>, h: nat, k: nat, i: nat)
    requires CountedRing(l, order) && IsCycle(l, c.mem, order) && h < |order| && i < |order|
    requires c.p == l.AddrOf(order[0]) && c.p2 == l.AddrOf(order[h])
    ensures Occurrences(Updates(l, c, k), l.AddrOf(order[i])) == Tally(DualStream, |order|, h, k)[i]
  {
    hide IsCycle, Run, Advance;
    if k > 0 {
      UpdatesAreTallied(l, c, order, h, k - 1, i);
      var d := CursorAfter(l, c, order, h, k - 1, i);
      OccurrencesOfTwo(Updates(l, c, k - 1), d.p, d.p2, l.AddrOf(order[i]));
      IncTwice(Tally(DualStream, |order|, h, k - 1), Advance(0, |order|, k - 1), Advance(h, |order|, k - 1), i);
    }
  }

  /** After k turns the two pointers are k lines on. */
  lemma CursorAfter(l: Layout, c: Cursor, order: seq<nat>, h: nat, k: nat, i: nat) returns (d: Cursor)
    requires CountedRing(l, order) && IsCycle(l, c.mem, order) && h < |order| && i < |order|
    requires c.p == l.AddrOf(order[0]) && c.p2 == l.AddrOf(order[h])
    ensures d == Run(l, DualStream, c, k)
    ensures Advance(0, |order|, k) < |order| && Advance(h, |order|, k) < |order|
    ensures d.p == l.AddrOf(order[i]) <==> Advance(0, |order|, k) == i
    ensures d.p2 == l.AddrOf(order[i]) <==> Advance(h, |order|, k) == i
  {
    hide Counted, IsCycle, Run;
    d := Run(l, DualStream, c, k);
    RunWalks(l, c, order, DualStream, h, k);
    SameLine(l, order, Advance(0, |order|, k), i);
    SameLine(l, order, Advance(h, |order|, k), i);
  }

  lemma SameLine(l: Layout, order: seq<nat>, i: nat, j: nat)
    requires CountedRing(l, order) && i < |order| && j < |order|
    ensures l.AddrOf(order[i]) == l.AddrOf(order[j]) <==> i == j
  {
    if i != j {
      assert order[i] + WORD <= order[j] || order[j] + WORD <= order[i];
      ObjectsDisjoint(l, order[i], WORD, order[j], WORD);
    }
  }

  /** From a half point that is no line of the list, some line is never updated, whatever the
      memory there leads the second stream to. */
  lemma OffListMisses(l: Layout, c: Cursor, order: seq<nat>, half: nat) returns (i: nat)
    requires CountedRing(l, order) && half < l.Size() && half !in order
    requires c.p2 == l.AddrOf(half)
    ensures i < |order| && Occurrences(Updates(l, c, |order| / 2), l.AddrOf(order[i])) == 0
  {
    var n, u := |order|, Updates(l, c, |order| / 2);
    var lines := seq(n, i requires 0 <= i < n => l.AddrOf(order[i]));
    forall i, j | 0 <= i < j < n ensures lines[i] != lines[j] {
      SameLine(l, order, i, j);
    }
    AddrRoundTrip(l, half);
    forall i | 0 <= i < n ensures lines[i] != c.p2 {
      AddrRoundTrip(l, order[i]);
    }
    SecondUpdate(l, c, n / 2);
    i := SomeMissing(lines, u, c.p2);
    OccursOnce(u, lines[i]);
  }

  lemma {:induction false} SecondUpdate(l: Layout, c: Cursor, k: nat)
    ensures k > 0 ==> Updates(l, c, k)[1] == c.p2
  {
    if k > 1 {
      SecondUpdate(l, c, k - 1);
    }
  }

  /** Pigeonhole: a sequence no longer than that of the wanted values, with one value besides
      them, misses a wanted one. */
  lemma SomeMissing(wanted: seq<nat>, u: seq<nat>, other: nat) returns (i: nat)
    requires |wanted| > 0 && Distinct(wanted) && other !in wanted
    requires |u| < |wanted| || (|u| == |wanted| && other in u)
    ensures i < |wanted| && wanted[i] !in u
  {
    var missing := Elements(wanted) - Elements(u);
    DistinctCardinality(wanted);
    ElementsAtMost(u);
    UnionAtMost(missing, Elements(u) - {other});
    assert Elements(wanted) <= missing + (Elements(u) - {other});
    SubsetCardinality(Elements(wanted), missing + (Elements(u) - {other}));
    assert |missing| > 0;
    var x :| x in missing;
    i :| 0 <= i < |wanted| && wanted[i] == x;
  }

  lemma UnionAtMost(a: set<nat>, b: set<nat>)
    ensures |a + b| <= |a| + |b|
  {
    assert a + b == a + (b - a);
    SubsetCardinality(b - a, b);
  }

  lemma {:induction false} ElementsAtMost(u: seq<nat>)
    ensures |Elements(u)| <= |u|
  {
    if u == [] {
      assert Elements(u) == {};
    } else {
      var t := u[..|u| - 1];
      ElementsAtMost(t);
      assert u == t + [u[|u| - 1]];
      assert Elements(u) == Elements(t) + {u[|u| - 1]};
    }
  }

  /** Every line is updated exactly once if and only if the list has even length and the half
      point is its middle line: for every list and every address getHalfPoint may answer. */
  lemma DualExactAnywhere(l: Layout, m0: seq<byte>, order: seq<nat>, half: nat)
    requires CountedRing(l, order) && IsCycle(l, m0, order) && half < l.Size()
    ensures var u := Updates(l, Cursor(m0, l.AddrOf(order[0]), l.AddrOf(half)), |order| / 2);
      (forall i :: 0 <= i < |order| ==> Occurrences(u, l.AddrOf(order[i])) == 1)
      <==> |order| % 2 == 0 && half == order[|order| / 2]
  {
    var n := |order|;
    var c := Cursor(m0, l.AddrOf(order[0]), l.AddrOf(half));
    if half in order {
      var h :| 0 <= h < n && order[h] == half;
      forall i | 0 <= i < n
        ensures Occurrences(Updates(l, c, n / 2), l.AddrOf(order[i])) == PassTally(DualStream, n, h)[i]
      {
        UpdatesAreTallied(l, c, order, h, n / 2, i);
      }
      DualExact(n, h);
      SameLine(l, order, h, n / 2);
    } else {
      var i := OffListMisses(l, c, order, half);
    }
  }

  /** The same for k turns, no more than half of the lines, as where a stride list is longer
      than numActiveLines() says: no more than that many will do. */
  lemma DualExactInTurns(l: Layout, m0: seq<byte>, order: seq<nat>, half: nat, k: nat)
    requires CountedRing(l, order) && IsCycle(l, m0, order) && half < l.Size() && 2 * k <= |order|
    ensures var u := Updates(l, Cursor(m0, l.AddrOf(order[0]), l.AddrOf(half)), k);
      (forall i :: 0 <= i < |order| ==> Occurrences(u, l.AddrOf(order[i])) == 1)
      <==> 2 * k == |order| && half == order[k]
  {
    hide IsCycle, Updates, Occurrences;
    if 2 * k == |order| {
      DualExactAnywhere(l, m0, order, half);
    } else {
      var i := FewUpdatesMiss(l, order, Updates(l, Cursor(m0, l.AddrOf(order[0]), l.AddrOf(half)), k));
    }
  }

  lemma FewUpdatesMiss(l: Layout, order: seq<nat>, u: seq<nat>) returns (i: nat)
    requires CountedRing(l, order) && |u| < |order|
    ensures i < |order| && Occurrences(u, l.AddrOf(order[i])) == 0
  {
    var lines := seq(|order|, i requires 0 <= i < |order| => l.AddrOf(order[i]));
    forall i, j | 0 <= i < j < |order| ensures lines[i] != lines[j] {
      SameLine(l, order, i, j);
    }
    forall i | 0 <= i < |order| ensures lines[i] != 0 {
      AddrRoundTrip(l, order[i]);
    }
    i := SomeMissing(lines, u, 0);
    OccursOnce(u, lines[i]);
  }

  // ---------------------------------------------------------------- odd numbers of pages

  /** With an odd number of pages, which fill the active size, the half point is in the middle
      of the middle page. It is the middle line of the list if and only if the pages have an
      even number of lines and the order drawn for them has that very line halfway. */
  lemma OddPagesExact(r: seq<nat>, perm: seq<nat>, pages: nat, page: nat, line: nat)
    requires 0 < line <= page && page % 2 == 0 && pages % 2 == 1 && FromZero(perm, page / line)
    requires r == PageOrder(pages, Scaled(perm, line), page)
    ensures |r| > 0
    ensures |r| % 2 == 0 && (pages * page) / 2 == r[|r| / 2]
       <==> |perm| % 2 == 0 && perm[|perm| / 2] * line == page / 2
  {
    MiddleOfOddPages(r, Scaled(perm, line), pages, pages / 2, page);
  }

  lemma MiddleOfOddPages(r: seq<nat>, lines: seq<nat>, pages: nat, q: nat, page: nat)
    requires page % 2 == 0 && pages == 2 * q + 1 && |lines| > 0 && r == PageOrder(pages, lines, page)
    ensures |r| > 0 && (|r| % 2 == 0 <==> |lines| % 2 == 0)
    ensures |r| % 2 == 0 ==> r[|r| / 2] == (pages * page) / 2 + lines[|lines| / 2] - page / 2
  {
    hide PageOrder;
    var n := |lines|;
    OddProduct(pages, q, n);
    OddProduct(pages, q, page);
    if n % 2 == 0 {
      PageOrderAt(pages, lines, page, q, n / 2);
    }
  }

  lemma OddProduct(a: nat, q: nat, b: nat)
    requires a == 2 * q + 1
    ensures a * b == 2 * (q * b) + b
  {}

  // ---------------------------------------------------------------- stride lists of odd length

  /** On a stride list that fills the active size, half of that is a line if and only if there
      is an even number of lines. */
  lemma StrideHalfIsALine(active: nat, line: nat)
    requires 1 < line && 0 < active && active % line == 0
    ensures active / 2 in Scaled(Identity(StrideCount(active, line)), line) <==> (active / line) % 2 == 0
  {
    var n := active / line;
    assert active == n * line;
    DivModUnique(active + line - 1, line, n, line - 1);
    ScaledMember(Identity(n), n, line, active / 2);
    HalfOfLines(n, line);
  }

  /** Half of n lines is a whole number of lines, and half a line more if n is odd. */
  lemma HalfOfLines(n: nat, line: nat)
    requires 1 < line && 0 < n
    ensures n * line / 2 == (n / 2) * line + if n % 2 == 0 then 0 else line / 2
    ensures (n * line / 2) / line == n / 2 < n && ((n * line / 2) % line == 0 <==> n % 2 == 0)
  {
    var q := n / 2;
    DoubleProduct(2 * q, q, line);
    if n % 2 == 0 {
      DivModUnique(n * line / 2, line, q, 0);
    } else {
      MulSucc(n - 1, line);
      HalfOfSum(n * line, q * line, line);
      DivModUnique(n * line / 2, line, q, line / 2);
    }
  }

  lemma HalfOfSum(x: nat, d: nat, line: nat)
    requires x == 2 * d + line
    ensures x / 2 == d + line / 2
  {}

  /** Memory as linking leaves a cleared region. */
  ghost predicate ClearOutside(m: seq<byte>, order: seq<nat>) {
    forall j {:trigger InField(order, 0, WORD, j)} :: 0 <= j < |m| && !InField(order, 0, WORD, j) ==> m[j] == 0
  }

  /** With an odd number of lines it is inside one, and the first turn of the very first work
      item loads a null pointer from there; with five lines or more a second turn follows it. */
  lemma OddStrideFaults(l: Layout, m0: seq<byte>, n: nat, line: nat)
    requires n % 2 == 1 && n >= 3 && LINE_MIN <= line && l.size2 == 0 && l.Size() == n * line
    requires IsCycle(l, m0, Scaled(Identity(n), line)) && ClearOutside(m0, Scaled(Identity(n), line))
    ensures var c := Cursor(m0, l.AddrOf(0), l.AddrOf(n * line / 2));
      && RmwStep(l, DualStream, c).p2 == 0
      && (SafeRun(l, DualStream, c, Turns(DualStream, n)) <==> n == 3)
  {
    hide IsCycle, RmwStep, SafeRun;
    var half, order := n * line / 2, Scaled(Identity(n), line);
    var c := Cursor(m0, l.AddrOf(0), l.AddrOf(half));
    HalfInside(n, line);
    CycleSize(l, m0, order);
    ClearHalf(m0, n, line);
    FirstTurn(l, m0, half);
    TurnsTaken(l, c, n / 2);
  }

  lemma CycleSize(l: Layout, m: seq<byte>, order: seq<nat>)
    requires IsCycle(l, m, order)
    ensures l.Valid() && |m| == l.Size()
  {}

  lemma HalfInside(n: nat, line: nat)
    requires n % 2 == 1 && n >= 3 && LINE_MIN <= line
    ensures LINE_MIN <= n * line / 2 && n * line / 2 + LINE_MIN <= n * line
  {
    HalfOfLines(n, line);
    MulMono(1, n / 2, line);
  }

  /** The eight bytes there belong to no link. */
  lemma ClearHalf(m: seq<byte>, n: nat, line: nat)
    requires n % 2 == 1 && n >= 3 && LINE_MIN <= line && |m| == n * line
    requires ClearOutside(m, Scaled(Identity(n), line))
    ensures n * line / 2 + WORD <= |m| && Word(m, n * line / 2) == 0
  {
    var half, order := n * line / 2, Scaled(Identity(n), line);
    HalfInside(n, line);
    forall j | half <= j < half + WORD ensures m[j] == 0 {
      assert !InField(order, 0, WORD, j) by {
        forall k | 0 <= k < n ensures !(order[k] + 0 <= j < order[k] + 0 + WORD) {
          LineClearOfHalf(n, line, k);
        }
      }
    }
    DecodeZero(m[half..half + WORD]);
  }

  lemma LineClearOfHalf(n: nat, line: nat, k: nat)
    requires n % 2 == 1 && n >= 3 && LINE_MIN <= line
    ensures k * line + WORD <= n * line / 2 || n * line / 2 + WORD <= k * line
  {
    HalfOfLines(n, line);
    if k <= n / 2 {
      MulMono(k, n / 2, line);
    } else {
      MulMono(n / 2 + 1, k, line);
      MulSucc(n / 2, line);
    }
  }

  /** The first turn increments at both pointers and then loads what was at the half point. */
  lemma FirstTurn(l: Layout, m0: seq<byte>, half: nat)
    requires l.Valid() && l.size2 == 0 && |m0| == l.Size()
    requires LINE_MIN <= half && half + LINE_MIN <= l.Size() && Word(m0, half) == 0
    ensures Safe(l, DualStream, l.AddrOf(0), l.AddrOf(half))
    ensures RmwStep(l, DualStream, Cursor(m0, l.AddrOf(0), l.AddrOf(half))).p2 == 0
    ensures !l.WordAt(0)
  {
    hide AddWord, Decode;
    AddrRoundTrip(l, 0);
    AddrRoundTrip(l, half);
    var m1 := Bump(l, m0, l.AddrOf(0));
    var v := AddWord(Word(m0, COUNTER), 1);
    assert m1 == PutWord(m0, COUNTER, v);
    GetPutOther(m0, COUNTER, v, half);
    var w := AddWord(Word(m1, half + COUNTER), 1);
    assert Bump(l, m1, l.AddrOf(half)) == PutWord(m1, half + COUNTER, w);
    GetPutOther(m1, half + COUNTER, w, half);
  }

  lemma TurnsTaken(l: Layout, c: Cursor, k: nat)
    requires k > 0 && Safe(l, DualStream, c.p, c.p2)
    requires RmwStep(l, DualStream, c).p2 == 0 && !l.WordAt(0)
    ensures SafeRun(l, DualStream, c, k) <==> k == 1
  {
    assert Run(l, DualStream, c, 0) == c;
    assert Run(l, DualStream, c, 1) == RmwStep(l, DualStream, c);
  }
}

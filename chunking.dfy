/**
 * The greedy packing of lines into post-sized buffers that the thread
 * composer performs, as a specification over groups of lines: each group is
 * the lines that one buffer held when it was flushed, and the buffer's text is
 * the group joined.
 */
module Chunking {
  import opened Text

  /**
   * Greedy grouping with `cur` the lines already in the buffer. Before a line
   * is added, the buffer is flushed if its length plus the line's would exceed
   * `cap` (even when the buffer is empty); at the end a non-empty buffer is
   * flushed.
   */
  function GroupFrom(lines: seq<string>, cap: nat, cur: seq<string>): (gs: seq<seq<string>>)
    ensures |gs| <= |lines| + 1
    decreases |lines|
  {
    if lines == [] then
      if Concat(cur) == "" then [] else [cur]
    else if |Concat(cur)| + |lines[0]| > cap then
      [cur] + GroupFrom(lines[1..], cap, [lines[0]])
    else
      GroupFrom(lines[1..], cap, cur + [lines[0]])
  }

  /** The groups flushed when packing `lines` from an empty buffer. */
  function Groups(lines: seq<string>, cap: nat): (gs: seq<seq<string>>)
    ensures |gs| <= |lines| + 1
    ensures lines == [] ==> gs == []
  {
    GroupFrom(lines, cap, [])
  }

  /** The text of each group. */
  function Joined(gs: seq<seq<string>>): seq<string>
  {
    seq(|gs|, j requires 0 <= j < |gs| => Concat(gs[j]))
  }

  /** The buffers flushed when packing `lines`, unstripped. */
  function Buffers(lines: seq<string>, cap: nat): seq<string>
  {
    Joined(Groups(lines, cap))
  }

  /** The groups' lines one after another. */
  function Flatten(gs: seq<seq<string>>): seq<string>
  {
    if gs == [] then [] else gs[0] + Flatten(gs[1..])
  }

  /** Position in the flattened lines at which group `j` starts. */
  function Start(gs: seq<seq<string>>, j: nat): nat
    requires j <= |gs|
  {
    |Flatten(gs[..j])|
  }

  predicate NonEmptyLines(lines: seq<string>)
  {
    forall i :: 0 <= i < |lines| ==> lines[i] != ""
  }

  /** A group fits the cap, or is a single line that alone is over it. */
  predicate Fits(g: seq<string>, cap: nat)
  {
    |Concat(g)| <= cap || (|g| == 1 && |g[0]| > cap)
  }

  /**
   * How many leading lines fit in `budget` when they are taken in order and
   * taking stops at the first line that does not fit.
   */
  function FitCount(lines: seq<string>, budget: int): (n: nat)
    ensures n <= |lines|
    ensures n > 0 ==> |Concat(lines[..n])| <= budget
    ensures n < |lines| ==> |Concat(lines[..n + 1])| > budget
    decreases |lines|
  {
    if lines == [] || |lines[0]| > budget then
      assert lines != [] ==> Concat(lines[..1]) == lines[0] by {
        if lines != [] { assert lines[..1][..0] == []; }
      }
      0
    else
      var k := FitCount(lines[1..], budget - |lines[0]|);
      ConcatCons(lines, k);
      if k < |lines| - 1 then ConcatCons(lines, k + 1); 1 + k else 1 + k
  }

  /** Joining a non-empty prefix: its first line, then the rest of the prefix joined. */
  lemma ConcatCons(lines: seq<string>, k: nat)
    requires k < |lines|
    ensures Concat(lines[..k + 1]) == lines[0] + Concat(lines[1..][..k])
  {
    assert lines[..k + 1] == [lines[0]] + lines[1..][..k];
    ConcatAppend([lines[0]], lines[1..][..k]);
    assert [lines[0]][..0] == [];
  }

  // ---------------------------------------------------------------------------
  // Flatten and Start
  // ---------------------------------------------------------------------------

  lemma {:induction false} FlattenAppend(a: seq<seq<string>>, b: seq<seq<string>>)
    ensures Flatten(a + b) == Flatten(a) + Flatten(b)
    decreases |a|
  {
    if a == [] {
      assert a + b == b;
    } else {
      assert (a + b)[1..] == a[1..] + b;
      FlattenAppend(a[1..], b);
    }
  }

  /** The lines are those of the groups before `j`, then group `j`'s, then those after. */
  lemma FlattenAround(gs: seq<seq<string>>, j: nat)
    requires j < |gs|
    ensures Flatten(gs) == Flatten(gs[..j]) + (gs[j] + Flatten(gs[j + 1..]))
    ensures Flatten(gs[..j + 1]) == Flatten(gs[..j]) + gs[j]
  {
    var before, g, rest := gs[..j], gs[j], gs[j..];
    assert gs == before + rest;
    FlattenAppend(before, rest);
    assert rest[0] == g && rest[1..] == gs[j + 1..];
    assert gs[..j + 1] == before + [g];
    FlattenAppend(before, [g]);
    assert Flatten([g]) == g by {
      assert [g][1..] == [];
    }
  }

  /** Line `m` of group `j` is line `Start(gs, j) + m` of the whole; groups are contiguous. */
  lemma FlattenIndex(gs: seq<seq<string>>, j: nat, m: nat)
    requires j < |gs| && m < |gs[j]|
    ensures Start(gs, j) + m < |Flatten(gs)|
    ensures gs[j][m] == Flatten(gs)[Start(gs, j) + m]
    ensures Start(gs, j + 1) == Start(gs, j) + |gs[j]|
  {
    FlattenAround(gs, j);
    var front, g, back := Flatten(gs[..j]), gs[j], Flatten(gs[j + 1..]);
    assert (front + (g + back))[|front| + m] == g[m];
  }

  /** The joined buffers are the joined groups' lines. */
  lemma {:induction false} ConcatJoined(gs: seq<seq<string>>)
    ensures Concat(Joined(gs)) == Concat(Flatten(gs))
    decreases |gs|
  {
    if gs != [] {
      assert Joined(gs) == [Concat(gs[0])] + Joined(gs[1..]);
      ConcatAppend([Concat(gs[0])], Joined(gs[1..]));
      ConcatJoined(gs[1..]);
      ConcatAppend(gs[0], Flatten(gs[1..]));
      assert Concat([Concat(gs[0])]) == Concat(gs[0]) by {
        assert [Concat(gs[0])][..0] == [];
      }
    }
  }

  // ---------------------------------------------------------------------------
  // Properties of the greedy grouping
  // ---------------------------------------------------------------------------

  /**
   * One step of the packing loop: with the groups closed so far in `flushed`
   * and the open group `cur`, line `i` either closes `cur` and opens a new
   * group, or joins `cur`.
   */
  lemma PackStep(lines: seq<string>, i: nat, cap: nat, flushed: seq<seq<string>>, cur: seq<string>)
    requires i < |lines|
    requires flushed + GroupFrom(lines[i..], cap, cur) == Groups(lines, cap)
    ensures |Concat(cur)| + |lines[i]| > cap
        ==> (flushed + [cur]) + GroupFrom(lines[i + 1..], cap, [lines[i]]) == Groups(lines, cap)
    ensures |Concat(cur)| + |lines[i]| <= cap
        ==> flushed + GroupFrom(lines[i + 1..], cap, cur + [lines[i]]) == Groups(lines, cap)
  {
    assert lines[i..][0] == lines[i] && lines[i..][1..] == lines[i + 1..];
    if |Concat(cur)| + |lines[i]| > cap {
      assert (flushed + [cur]) + GroupFrom(lines[i + 1..], cap, [lines[i]])
          == flushed + ([cur] + GroupFrom(lines[i + 1..], cap, [lines[i]]));
    }
  }

  /** When the lines run out, the open group is the last group unless it is empty. */
  lemma PackEnd(lines: seq<string>, cap: nat, flushed: seq<seq<string>>, cur: seq<string>)
    requires flushed + GroupFrom(lines[|lines|..], cap, cur) == Groups(lines, cap)
    ensures Concat(cur) != "" ==> flushed + [cur] == Groups(lines, cap)
    ensures Concat(cur) == "" ==> flushed == Groups(lines, cap)
  {
    assert lines[|lines|..] == [];
  }

  lemma ConcatNonEmpty(ss: seq<string>)
    requires NonEmptyLines(ss) && ss != []
    ensures Concat(ss) != ""
  {
  }

  /** Every line lands in exactly one group, in input order. */
  lemma {:induction false} GroupFromPartition(lines: seq<string>, cap: nat, cur: seq<string>)
    requires NonEmptyLines(cur) && NonEmptyLines(lines)
    ensures Flatten(GroupFrom(lines, cap, cur)) == cur + lines
    decreases |lines|
  {
    if lines == [] {
      if cur != [] {
        ConcatNonEmpty(cur);
        assert Flatten([cur]) == cur + Flatten([cur][1..]);
      }
    } else if |Concat(cur)| + |lines[0]| > cap {
      GroupFromPartition(lines[1..], cap, [lines[0]]);
      var rest := GroupFrom(lines[1..], cap, [lines[0]]);
      FlattenHead([cur] + rest);
      assert ([cur] + rest)[1..] == rest;
      ShiftFirst(cur, lines);
    } else {
      GroupFromPartition(lines[1..], cap, cur + [lines[0]]);
      ShiftFirst(cur, lines);
    }
  }

  /** Every flushed buffer fits the cap unless it is one line over the cap by itself. */
  lemma {:induction false} GroupFromFits(lines: seq<string>, cap: nat, cur: seq<string>)
    requires Fits(cur, cap)
    ensures forall j :: 0 <= j < |GroupFrom(lines, cap, cur)| ==> Fits(GroupFrom(lines, cap, cur)[j], cap)
    decreases |lines|
  {
    if lines == [] {
    } else if |Concat(cur)| + |lines[0]| > cap {
      assert Concat([lines[0]]) == lines[0] by {
        assert [lines[0]][..0] == [];
      }
      GroupFromFits(lines[1..], cap, [lines[0]]);
    } else {
      assert (cur + [lines[0]])[..|cur|] == cur;
      GroupFromFits(lines[1..], cap, cur + [lines[0]]);
    }
  }

  /**
   * The shape of the greedy grouping: the buffer's lines start the first group,
   * every later group is non-empty, and a group was closed only because the
   * next group's first line would have taken it over the cap.
   */
  lemma {:induction false} GroupFromShape(lines: seq<string>, cap: nat, cur: seq<string>)
    ensures var gs := GroupFrom(lines, cap, cur);
      && (Concat(cur) != "" ==> |gs| > 0)
      && (|gs| > 0 ==> cur <= gs[0])
      && (forall j :: 1 <= j < |gs| ==> gs[j] != [])
      && (forall j :: 0 <= j < |gs| - 1 ==> |Concat(gs[j])| + |gs[j + 1][0]| > cap)
    decreases |lines|
  {
    if lines == [] {
    } else if |Concat(cur)| + |lines[0]| > cap {
      assert Concat([lines[0]]) == lines[0] by {
        assert [lines[0]][..0] == [];
      }
      GroupFromShape(lines[1..], cap, [lines[0]]);
    } else {
      assert (cur + [lines[0]])[..|cur|] == cur;
      GroupFromShape(lines[1..], cap, cur + [lines[0]]);
    }
  }

  /**
   * The first group is the buffer's lines followed by the longest run of the
   * next lines that still fits what is left of the cap.
   */
  lemma {:induction false} GroupFromFirst(lines: seq<string>, cap: nat, cur: seq<string>)
    requires |Concat(cur)| <= cap
    requires |GroupFrom(lines, cap, cur)| > 0
    ensures GroupFrom(lines, cap, cur)[0] == cur + lines[..FitCount(lines, cap - |Concat(cur)|)]
    decreases |lines|
  {
    if lines != [] && |Concat(cur)| + |lines[0]| <= cap {
      var cur' := cur + [lines[0]];
      assert cur'[..|cur|] == cur;
      GroupFromFirst(lines[1..], cap, cur');
      var k := FitCount(lines[1..], cap - |Concat(cur')|);
      assert lines[..k + 1] == [lines[0]] + lines[1..][..k];
    }
  }

  // ---------------------------------------------------------------------------
  // The same properties from an empty buffer
  // ---------------------------------------------------------------------------

  /** Every line is in exactly one buffer, in order, and the buffers join to the lines joined. */
  lemma GroupsPartition(lines: seq<string>, cap: nat)
    requires NonEmptyLines(lines)
    ensures Flatten(Groups(lines, cap)) == lines
    ensures Concat(Buffers(lines, cap)) == Concat(lines)
    ensures Groups(lines, cap) == [] <==> lines == []
  {
    GroupFromPartition(lines, cap, []);
    ConcatJoined(Groups(lines, cap));
  }

  /** A joined group with non-empty first and last lines begins as the first begins and ends as the last ends. */
  lemma JoinedEnds(gs: seq<seq<string>>, j: nat)
    requires j < |gs| && gs[j] != [] && gs[j][0] != "" && gs[j][|gs[j]| - 1] != ""
    ensures var b, g := Joined(gs)[j], gs[j];
      b != "" && b[0] == g[0][0] && b[|b| - 1] == g[|g| - 1][|g[|g| - 1]| - 1]
  {
    ConcatEnds(gs[j]);
  }

  /** A buffer with lines begins as its first line begins and ends as its last line ends. */
  lemma BufferEndsAt(lines: seq<string>, cap: nat, j: nat)
    requires NonEmptyLines(lines)
    requires j < |Groups(lines, cap)| && Groups(lines, cap)[j] != []
    ensures var gs, b := Groups(lines, cap), Buffers(lines, cap)[j];
      var s, last := Start(gs, j), |gs[j]| - 1;
      && s + last < |lines| && b != ""
      && b[0] == lines[s][0] && b[|b| - 1] == lines[s + last][|lines[s + last]| - 1]
  {
    var gs := Groups(lines, cap);
    var g := gs[j];
    var s, last := Start(gs, j), |g| - 1;
    GroupsPartition(lines, cap);
    FlattenIndex(gs, j, 0);
    FlattenIndex(gs, j, last);
    assert g[0] == lines[s] && g[last] == lines[s + last];
    JoinedEnds(gs, j);
  }

  /** Each buffer is at most `cap` long, unless it is a single line longer than `cap`. */
  lemma GroupsFit(lines: seq<string>, cap: nat)
    ensures forall j :: 0 <= j < |Groups(lines, cap)| ==>
      |Buffers(lines, cap)[j]| <= cap || (|Groups(lines, cap)[j]| == 1 && |Groups(lines, cap)[j][0]| > cap)
  {
    var gs := Groups(lines, cap);
    GroupFromFits(lines, cap, []);
    forall j | 0 <= j < |gs|
      ensures |Buffers(lines, cap)[j]| <= cap || (|gs[j]| == 1 && |gs[j][0]| > cap)
    {
      assert Buffers(lines, cap)[j] == Concat(gs[j]);
      assert Fits(gs[j], cap);
    }
  }

  /** A buffer is flushed before the end only when the next line would take it over `cap`. */
  lemma GroupsGreedy(lines: seq<string>, cap: nat)
    ensures forall j :: 0 <= j < |Groups(lines, cap)| - 1 ==>
      Groups(lines, cap)[j + 1] != [] &&
      |Buffers(lines, cap)[j]| + |Groups(lines, cap)[j + 1][0]| > cap
  {
    var gs := Groups(lines, cap);
    GroupFromShape(lines, cap, []);
    forall j | 0 <= j < |gs| - 1
      ensures gs[j + 1] != [] && |Buffers(lines, cap)[j]| + |gs[j + 1][0]| > cap
    {
      assert Buffers(lines, cap)[j] == Concat(gs[j]);
    }
  }

  /** An empty buffer is flushed exactly when the first line alone is over `cap`, and only first. */
  lemma GroupsEmptyBuffer(lines: seq<string>, cap: nat)
    requires NonEmptyLines(lines)
    ensures (|Groups(lines, cap)| > 0 && Groups(lines, cap)[0] == []) <==> (lines != [] && |lines[0]| > cap)
    ensures forall j :: 1 <= j < |Groups(lines, cap)| ==> Groups(lines, cap)[j] != []
  {
    GroupFromShape(lines, cap, []);
    if lines != [] && |lines[0]| <= cap {
      assert Concat([lines[0]]) == lines[0] by {
        assert [lines[0]][..0] == [];
      }
      GroupFromShape(lines[1..], cap, [lines[0]]);
    }
  }

  /** The first buffer holds exactly the longest run of leading lines that fits `cap`. */
  lemma GroupsFirst(lines: seq<string>, cap: nat)
    requires NonEmptyLines(lines) && lines != []
    ensures |Groups(lines, cap)| > 0
    ensures Groups(lines, cap)[0] == lines[..FitCount(lines, cap)]
  {
    GroupsPartition(lines, cap);
    GroupFromFirst(lines, cap, []);
  }

  /**
   * `FitCount` is the longest prefix that fits: a prefix of the lines fits the
   * budget exactly when it is no longer than `FitCount` lines (and the budget
   * is not negative). So stopping at the first line that does not fit never
   * misses a longer fitting prefix.
   */
  lemma FitCountIsLongestFittingPrefix(lines: seq<string>, budget: int, m: nat)
    requires m <= |lines|
    ensures |Concat(lines[..m])| <= budget <==> (budget >= 0 && m <= FitCount(lines, budget))
  {
    var n := FitCount(lines, budget);
    if m <= n {
      ConcatPrefixMonotone(lines, m, n);
      assert lines[..0] == [];
    } else {
      ConcatPrefixMonotone(lines, n + 1, m);
    }
  }

  // ---------------------------------------------------------------------------
  // Greedy packing, defined by its properties
  // ---------------------------------------------------------------------------

  /**
   * The shape every packing keeps: only the first group may be empty; every
   * group fits the cap or is one oversized line; and every group was closed
   * because the next line would not fit.
   */
  ghost predicate Packed(gs: seq<seq<string>>, cap: nat)
  {
    && (forall j :: 1 <= j < |gs| ==> gs[j] != [])
    && (forall j :: 0 <= j < |gs| ==> Fits(gs[j], cap))
    && (forall j :: 0 <= j < |gs| - 1 ==> |Concat(gs[j])| + |gs[j + 1][0]| > cap)
  }

  /**
   * `gs` packs `lines` greedily under `cap`: the groups hold the lines in
   * order, keep the packed shape, and the first group is empty exactly when
   * the first line alone is over the cap.
   */
  ghost predicate IsGreedyPacking(lines: seq<string>, cap: nat, gs: seq<seq<string>>)
  {
    && Flatten(gs) == lines
    && Packed(gs, cap)
    && ((|gs| > 0 && gs[0] == []) <==> (lines != [] && |lines[0]| > cap))
  }

  /** Dropping the first group keeps the packed shape, and leaves no empty group. */
  lemma PackedTail(gs: seq<seq<string>>, cap: nat)
    requires gs != [] && Packed(gs, cap)
    ensures Packed(gs[1..], cap)
    ensures forall j :: 0 <= j < |gs[1..]| ==> gs[1..][j] != []
  {
    var tail := gs[1..];
    forall j | 0 <= j < |tail| - 1 ensures |Concat(tail[j])| + |tail[j + 1][0]| > cap {
      assert tail[j] == gs[j + 1] && tail[j + 1] == gs[j + 2];
    }
  }

  /** A group is a prefix of the flattened groups. */
  lemma FlattenHead(gs: seq<seq<string>>)
    requires gs != []
    ensures Flatten(gs) == gs[0] + Flatten(gs[1..])
  {
  }

  /** The flattening of groups that are all non-empty is empty only when there are none. */
  lemma FlattenEmpty(gs: seq<seq<string>>)
    requires forall j :: 0 <= j < |gs| ==> gs[j] != []
    requires Flatten(gs) == []
    ensures gs == []
  {
    if gs != [] {
      FlattenHead(gs);
    }
  }

  /** The first group is a prefix of the flattening, and the other groups flatten to the rest. */
  lemma FlattenSplit(gs: seq<seq<string>>, f: seq<string>)
    requires gs != [] && Flatten(gs) == f
    ensures |gs[0]| <= |f| && gs[0] == f[..|gs[0]|] && Flatten(gs[1..]) == f[|gs[0]|..]
  {
  }

  /** Non-empty groups that flatten to non-empty lines start with the first line. */
  lemma FlattenStartsWith(gs: seq<seq<string>>, lines: seq<string>)
    requires forall j :: 0 <= j < |gs| ==> gs[j] != []
    requires Flatten(gs) == lines && lines != []
    ensures gs != [] && [lines[0]] <= gs[0]
  {
    if gs != [] {
      FlattenSplit(gs, lines);
    }
  }

  /** A group of several lines that starts with `cur` and then `line` is over the cap when those are. */
  lemma OverfullGroup(g: seq<string>, cur: seq<string>, line: string, cap: nat)
    requires cur != [] && |cur| < |g| && g[..|cur| + 1] == cur + [line]
    requires |Concat(cur)| + |line| > cap
    ensures !Fits(g, cap)
  {
    assert (cur + [line])[..|cur|] == cur;
    ConcatPrefixMonotone(g, |cur| + 1, |g|);
    assert g[..|g|] == g;
  }

  /** In a packing, the group after the first starts with the line that did not fit the first. */
  lemma PackedNext(gs: seq<seq<string>>, cap: nat, rest: seq<string>)
    requires gs != [] && Packed(gs, cap) && Flatten(gs[1..]) == rest && rest != []
    ensures |gs| > 1 && gs[1][0] == rest[0]
    ensures |Concat(gs[0])| + |rest[0]| > cap
  {
    PackedTail(gs, cap);
    FlattenStartsWith(gs[1..], rest);
    assert gs[1..][0] == gs[1];
  }

  /** A group that fits, starts with `cur` and continues with `lines` holds just `cur` when the next line does not fit. */
  lemma ClosedGroup(lines: seq<string>, cap: nat, cur: seq<string>, g: seq<string>)
    requires cur != [] && lines != [] && |Concat(cur)| + |lines[0]| > cap
    requires cur <= g && |g| <= |cur + lines| && g == (cur + lines)[..|g|] && Fits(g, cap)
    ensures g == cur
  {
    if |g| > |cur| {
      assert g[..|cur| + 1] == cur + [lines[0]];
      OverfullGroup(g, cur, lines[0], cap);
    }
  }

  /** In a packing whose first group starts with `cur`, a next line that does not fit closes the group. */
  lemma PackedCloses(lines: seq<string>, cap: nat, cur: seq<string>, gs: seq<seq<string>>)
    requires cur != [] && lines != [] && |Concat(cur)| + |lines[0]| > cap
    requires |gs| > 0 && cur <= gs[0] && Flatten(gs) == cur + lines && Packed(gs, cap)
    ensures gs[0] == cur
    ensures Flatten(gs[1..]) == [lines[0]] + lines[1..]
    ensures gs[1..] != [] && [lines[0]] <= gs[1..][0]
    ensures Packed(gs[1..], cap)
  {
    FlattenSplit(gs, cur + lines);
    ClosedGroup(lines, cap, cur, gs[0]);
    assert Flatten(gs[1..]) == lines;
    PackedTail(gs, cap);
    FlattenStartsWith(gs[1..], lines);
  }

  /**
   * When the first group starts with `cur` and the next line fits after it,
   * the group takes that line: closing it there would contradict the reason
   * groups are closed.
   */
  lemma PackedJoins(lines: seq<string>, cap: nat, cur: seq<string>, gs: seq<seq<string>>)
    requires lines != [] && |Concat(cur)| + |lines[0]| <= cap
    requires |gs| > 0 && cur <= gs[0] && Flatten(gs) == cur + lines
    requires |gs| > 1 ==> gs[1] != [] && |Concat(gs[0])| + |gs[1][0]| > cap
    ensures cur + [lines[0]] <= gs[0]
    ensures Flatten(gs) == (cur + [lines[0]]) + lines[1..]
  {
    FlattenSplit(gs, cur + lines);
    var k := |gs[0]| - |cur|;
    assert gs[0] == cur + lines[..k];
    if k == 0 {
      var tail := gs[1..];
      assert Flatten(tail) == lines;
      if tail != [] {
        FlattenSplit(tail, lines);
      }
    }
    assert gs[0][|cur|] == lines[0];
    assert cur + [lines[0]] == gs[0][..|cur| + 1];
    ShiftFirst(cur, lines);
  }

  /** Uniqueness with `cur` already in the first group. */
  lemma {:induction false} GreedyPackingFrom(lines: seq<string>, cap: nat, cur: seq<string>, gs: seq<seq<string>>)
    requires NonEmptyLines(cur) && NonEmptyLines(lines) && cur != []
    requires |gs| > 0 && cur <= gs[0] && Flatten(gs) == cur + lines && Packed(gs, cap)
    ensures gs == GroupFrom(lines, cap, cur)
    decreases |lines|
  {
    if lines == [] {
      FlattenSplit(gs, cur);
      PackedTail(gs, cap);
      FlattenEmpty(gs[1..]);
      ConcatNonEmpty(cur);
      assert gs == [cur];
    } else if |Concat(cur)| + |lines[0]| > cap {
      PackedCloses(lines, cap, cur, gs);
      GreedyPackingFrom(lines[1..], cap, [lines[0]], gs[1..]);
      assert gs == [cur] + gs[1..];
    } else {
      PackedJoins(lines, cap, cur, gs);
      GreedyPackingFrom(lines[1..], cap, cur + [lines[0]], gs);
    }
  }

  /** `Groups` is a greedy packing. */
  lemma GroupsArePacking(lines: seq<string>, cap: nat)
    requires NonEmptyLines(lines)
    ensures IsGreedyPacking(lines, cap, Groups(lines, cap))
  {
    GroupsPartition(lines, cap);
    GroupFromFits(lines, cap, []);
    GroupFromShape(lines, cap, []);
    GroupsEmptyBuffer(lines, cap);
  }

  /** A greedy packing whose first line is alone over the cap opens with an empty group. */
  lemma PackingOversizedFirst(lines: seq<string>, cap: nat, gs: seq<seq<string>>)
    requires NonEmptyLines(lines) && IsGreedyPacking(lines, cap, gs)
    requires lines != [] && |lines[0]| > cap
    ensures gs == Groups(lines, cap)
  {
    FlattenSplit(gs, lines);
    var tail := gs[1..];
    assert Flatten(tail) == [lines[0]] + lines[1..];
    PackedTail(gs, cap);
    FlattenStartsWith(tail, lines);
    GreedyPackingFrom(lines[1..], cap, [lines[0]], tail);
    assert gs == [[]] + tail;
  }

  /** A greedy packing whose first line fits opens with a group that starts with it. */
  lemma PackingFittingFirst(lines: seq<string>, cap: nat, gs: seq<seq<string>>)
    requires NonEmptyLines(lines) && IsGreedyPacking(lines, cap, gs)
    requires lines != [] && |lines[0]| <= cap
    ensures gs == Groups(lines, cap)
  {
    FlattenSplit(gs, lines);
    assert [lines[0]] <= gs[0];
    assert Flatten(gs) == [lines[0]] + lines[1..];
    GreedyPackingFrom(lines[1..], cap, [lines[0]], gs);
    assert [] + [lines[0]] == [lines[0]];
  }

  /** Any greedy packing is the one `Groups` computes. */
  lemma PackingIsGroups(lines: seq<string>, cap: nat, gs: seq<seq<string>>)
    requires NonEmptyLines(lines) && IsGreedyPacking(lines, cap, gs)
    ensures gs == Groups(lines, cap)
  {
    // With no lines, the only packing is no groups; Dafny sees this from the definitions.
    if lines != [] {
      if |lines[0]| > cap {
        PackingOversizedFirst(lines, cap, gs);
      } else {
        PackingFittingFirst(lines, cap, gs);
      }
    }
  }

  /** The greedy packing of a chart's lines exists, is unique, and is what `Groups` computes. */
  lemma GroupsIsTheGreedyPacking(lines: seq<string>, cap: nat, gs: seq<seq<string>>)
    requires NonEmptyLines(lines)
    ensures IsGreedyPacking(lines, cap, gs) <==> gs == Groups(lines, cap)
  {
    GroupsArePacking(lines, cap);
    if IsGreedyPacking(lines, cap, gs) {
      PackingIsGroups(lines, cap, gs);
    }
  }
}

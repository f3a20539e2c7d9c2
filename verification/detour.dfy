/**
 A consequence of the search sharing one travelled set across sibling
 branches: a branch that fails still leaves its pairs travelled, so a later
 branch that needs one of those pairs with a different running value cannot
 take it. The graph below is what `AddRange` builds from five rules on an
 empty translator; it has a gated path from `Start` to `Goal`, yet the search
 reports nothing found.
 */
module SharedVisited {
  import opened Wrappers
  import opened Rules
  import opened Mirror
  import opened RuleGraph
  import opened Search

  datatype Stop = Start | Side | Cross | Last | Goal

  const Keep: int -> int := x => x

  /** Start-to-Cross turns the value 1 into 0, which the final literal rule rejects. */
  const Wrong: Rule<Stop, int> := Direct(Start, 1, Cross, 0)
  /** Start-to-Side keeps the value 1. */
  const Right: Rule<Stop, int> := Direct(Start, 1, Side, 1)
  /** The middle rules are forward-only, so `AddRange` stores no mirror for them. */
  const SideCross: Rule<Stop, int> := ForwardOnly(Side, Cross, Keep)
  const CrossLast: Rule<Stop, int> := ForwardOnly(Cross, Last, Keep)
  /** The only way into `Goal`, open to the value 1 alone. */
  const LastGoal: Rule<Stop, int> := Direct(Last, 1, Goal, 2)

  /** The rules handed to `AddRange`. */
  const Detour: seq<Rule<Stop, int>> := [Wrong, Right, SideCross, CrossLast, LastGoal]

  const WrongBack: Rule<Stop, int> := Direct(Cross, 0, Start, 1)
  const RightBack: Rule<Stop, int> := Direct(Side, 1, Start, 1)
  const LastGoalBack: Rule<Stop, int> := Direct(Goal, 2, Last, 1)

  /** The rules of `Detour` followed by their mirrors, the order `AddRange` inserts them in. */
  function Registration(): seq<Rule<Stop, int>>
  {
    [Wrong, Right, SideCross, CrossLast, LastGoal, WrongBack, RightBack, LastGoalBack]
  }

  /** The graphs after each insertion of `Registration()`, written out. */
  function AfterWrong(): Graph<Stop, int>
  {
    Graph(
      map[Start := map[Cross := [Wrong]]],
      map[Start := [Cross]])
  }

  function AfterRight(): Graph<Stop, int>
  {
    Graph(
      map[Start := map[Cross := [Wrong], Side := [Right]]],
      map[Start := [Cross, Side]])
  }

  function AfterSideCross(): Graph<Stop, int>
  {
    Graph(
      map[Start := map[Cross := [Wrong], Side := [Right]],
        Side := map[Cross := [SideCross]]],
      map[Start := [Cross, Side], Side := [Cross]])
  }

  function AfterCrossLast(): Graph<Stop, int>
  {
    Graph(
      map[Start := map[Cross := [Wrong], Side := [Right]],
        Side := map[Cross := [SideCross]],
        Cross := map[Last := [CrossLast]]],
      map[Start := [Cross, Side], Side := [Cross], Cross := [Last]])
  }

  function AfterLastGoal(): Graph<Stop, int>
  {
    Graph(
      map[Start := map[Cross := [Wrong], Side := [Right]],
        Side := map[Cross := [SideCross]],
        Cross := map[Last := [CrossLast]],
        Last := map[Goal := [LastGoal]]],
      map[Start := [Cross, Side], Side := [Cross], Cross := [Last], Last := [Goal]])
  }

  function AfterWrongBack(): Graph<Stop, int>
  {
    Graph(
      map[Start := map[Cross := [Wrong], Side := [Right]],
        Side := map[Cross := [SideCross]],
        Cross := map[Last := [CrossLast], Start := [WrongBack]],
        Last := map[Goal := [LastGoal]]],
      map[Start := [Cross, Side], Side := [Cross], Cross := [Last, Start], Last := [Goal]])
  }

  function AfterRightBack(): Graph<Stop, int>
  {
    Graph(
      map[Start := map[Cross := [Wrong], Side := [Right]],
        Side := map[Cross := [SideCross], Start := [RightBack]],
        Cross := map[Last := [CrossLast], Start := [WrongBack]],
        Last := map[Goal := [LastGoal]]],
      map[Start := [Cross, Side], Side := [Cross, Start], Cross := [Last, Start], Last := [Goal]])
  }

  /** The graph `AddRange(Detour)` builds: Start tries Cross before Side, Cross tries Last before Start. */
  function DetourGraph(): Graph<Stop, int>
  {
    Graph(
      map[Start := map[Cross := [Wrong], Side := [Right]],
        Side := map[Cross := [SideCross], Start := [RightBack]],
        Cross := map[Last := [CrossLast], Start := [WrongBack]],
        Last := map[Goal := [LastGoal]],
        Goal := map[Last := [LastGoalBack]]],
      map[Start := [Cross, Side], Side := [Cross, Start], Cross := [Last, Start], Last := [Goal], Goal := [Last]])
  }

  /** The graph before and after each insertion of `Registration()`, starting from an empty one. */
  function Stages(): seq<Graph<Stop, int>>
  {
    [Empty(), AfterWrong(), AfterRight(), AfterSideCross(), AfterCrossLast(), AfterLastGoal(), AfterWrongBack(), AfterRightBack(), DetourGraph()]
  }

  lemma RegisterWrong()
    ensures Insert(Empty(), Wrong) == AfterWrong()
  {
    var g := Insert(Empty(), Wrong);
    var ks: seq<Stop> := [];
    assert ks + [Cross] == [Cross];
    assert g.order == AfterWrong().order;
    assert g.edges[Start] == AfterWrong().edges[Start];
  }

  lemma RegisterRight()
    ensures Insert(AfterWrong(), Right) == AfterRight()
  {
    var g := Insert(AfterWrong(), Right);
    var ks: seq<Stop> := [Cross];
    assert ks + [Side] == [Cross, Side];
    assert g.order == AfterRight().order;
    assert g.edges[Start] == AfterRight().edges[Start];
  }

  lemma RegisterSideCross()
    ensures Insert(AfterRight(), SideCross) == AfterSideCross()
  {
    var g := Insert(AfterRight(), SideCross);
    var ks: seq<Stop> := [];
    assert ks + [Cross] == [Cross];
    assert g.order == AfterSideCross().order;
    assert g.edges[Side] == AfterSideCross().edges[Side];
  }

  lemma RegisterCrossLast()
    ensures Insert(AfterSideCross(), CrossLast) == AfterCrossLast()
  {
    var g := Insert(AfterSideCross(), CrossLast);
    var ks: seq<Stop> := [];
    assert ks + [Last] == [Last];
    assert g.order == AfterCrossLast().order;
    assert g.edges[Cross] == AfterCrossLast().edges[Cross];
  }

  lemma RegisterLastGoal()
    ensures Insert(AfterCrossLast(), LastGoal) == AfterLastGoal()
  {
    var g := Insert(AfterCrossLast(), LastGoal);
    var ks: seq<Stop> := [];
    assert ks + [Goal] == [Goal];
    assert g.order == AfterLastGoal().order;
    assert g.edges[Last] == AfterLastGoal().edges[Last];
  }

  lemma RegisterWrongBack()
    ensures Insert(AfterLastGoal(), WrongBack) == AfterWrongBack()
  {
    var g := Insert(AfterLastGoal(), WrongBack);
    var ks: seq<Stop> := [Last];
    assert ks + [Start] == [Last, Start];
    assert g.order == AfterWrongBack().order;
    assert g.edges[Cross] == AfterWrongBack().edges[Cross];
  }

  lemma RegisterRightBack()
    ensures Insert(AfterWrongBack(), RightBack) == AfterRightBack()
  {
    var g := Insert(AfterWrongBack(), RightBack);
    var ks: seq<Stop> := [Cross];
    assert ks + [Start] == [Cross, Start];
    assert g.order == AfterRightBack().order;
    assert g.edges[Side] == AfterRightBack().edges[Side];
  }

  lemma RegisterLastGoalBack()
    ensures Insert(AfterRightBack(), LastGoalBack) == DetourGraph()
  {
    var g := Insert(AfterRightBack(), LastGoalBack);
    var ks: seq<Stop> := [];
    assert ks + [Last] == [Last];
    assert g.order == DetourGraph().order;
    assert g.edges[Goal] == DetourGraph().edges[Goal];
  }

  /** Insertion n of `Registration()` takes written-out stage n to stage n + 1. */
  lemma StageStep(n: nat)
    requires n < |Registration()|
    ensures n + 1 < |Stages()| && Insert(Stages()[n], Registration()[n]) == Stages()[n + 1]
  {
    match n
      case 0 => RegisterWrong();
      case 1 => RegisterRight();
      case 2 => RegisterSideCross();
      case 3 => RegisterCrossLast();
      case 4 => RegisterLastGoal();
      case 5 => RegisterWrongBack();
      case 6 => RegisterRightBack();
      case _ => RegisterLastGoalBack();
  }

  /** Each insertion of `Registration()` takes one written-out stage to the next. */
  lemma StagesStep()
    ensures |Stages()| == |Registration()| + 1
    ensures forall n | 0 <= n < |Registration()| :: Insert(Stages()[n], Registration()[n]) == Stages()[n + 1]
  {
    forall n | 0 <= n < |Registration()|
      ensures Insert(Stages()[n], Registration()[n]) == Stages()[n + 1]
    {
      StageStep(n);
    }
  }

  /** The `...Back` rules are the mirrors `AddRange` adds; the forward-only rules get none. */
  lemma MirrorDetour()
    ensures Detour + Mirrors(Detour) == Registration()
  {
    assert Swap(Wrong) == WrongBack && Swap(Right) == RightBack && Swap(LastGoal) == LastGoalBack;
    assert Mirrors(Detour[4..]) == [LastGoalBack] by { assert Detour[4..][1..] == []; }
    assert Mirrors(Detour[3..]) == [LastGoalBack] by { assert Detour[3..][1..] == Detour[4..]; }
    assert Mirrors(Detour[2..]) == [LastGoalBack] by { assert Detour[2..][1..] == Detour[3..]; }
    assert Mirrors(Detour[1..]) == [RightBack, LastGoalBack] by { assert Detour[1..][1..] == Detour[2..]; }
  }

  /** Registering `Detour` on an empty translator succeeds, builds `DetourGraph` and keeps it well formed. */
  lemma DetourRegisters()
    ensures AddRange(Empty(), Detour) == Success(DetourGraph())
    ensures WellFormed(DetourGraph())
  {
    var all := Registration();
    MirrorDetour();
    NothingCollidesWithEmpty(all);
    StagesStep();
    InsertAllStages(Stages(), all);
    assert InsertAll(Empty(), all) == DetourGraph() by {
      assert Stages()[0] == Empty() && Stages()[8] == DetourGraph();
    }
    InsertAllWellFormed(Empty(), all);
  }

  lemma DetourNeighbours()
    ensures Neighbours(DetourGraph(), Start) == [Wrong, Right]
    ensures Neighbours(DetourGraph(), Side) == [SideCross, RightBack]
    ensures Neighbours(DetourGraph(), Cross) == [CrossLast, WrongBack]
    ensures Neighbours(DetourGraph(), Last) == [LastGoal]
  {
    var g := DetourGraph();
    var m := g.edges[Start];
    assert Concat(m, [Side]) == m[Side] + Concat(m, []);
    assert Concat(m, [Cross, Side]) == m[Cross] + Concat(m, [Side]);
    var s := g.edges[Side];
    assert Concat(s, [Start]) == s[Start] + Concat(s, []);
    assert Concat(s, [Cross, Start]) == s[Cross] + Concat(s, [Start]);
    var c := g.edges[Cross];
    assert Concat(c, [Start]) == c[Start] + Concat(c, []);
    assert Concat(c, [Last, Start]) == c[Last] + Concat(c, [Start]);
    assert Concat(g.edges[Last], [Goal]) == g.edges[Last][Goal] + Concat(g.edges[Last], []);
  }

  /** A key without a bucket towards Goal hands the search straight to its neighbours. */
  lemma WalksOn(key: Stop, v: int, visited: set<(Stop, Stop)>)
    requires key in DetourGraph().edges && Goal !in DetourGraph().edges[key]
    ensures forall i | 0 <= i < |Neighbours(DetourGraph(), key)| ::
      (key, Neighbours(DetourGraph(), key)[i].keyB) in Pairs(DetourGraph())
    ensures Find(DetourGraph(), v, key, Goal, visited)
      == Explore(DetourGraph(), Neighbours(DetourGraph(), key), v, key, Goal, visited)
  {
    NeighboursPairs(DetourGraph(), key);
  }

  /** With the value 0, Last offers nothing: its only rule wants 1. */
  lemma ZeroStuckAtLast(visited: set<(Stop, Stop)>)
    ensures Find(DetourGraph(), 0, Last, Goal, visited) == Outcome(false, [], visited)
  {
    DetourNeighbours();
    var g := DetourGraph();
    assert g.edges[Last][Goal] == [LastGoal];
    assert FirstHit([LastGoal], 0, Goal).None?;
    NeighboursPairs(g, Last);
    ExploreSkips(g, [LastGoal], 0, Last, Goal, visited);
    assert [LastGoal][1..] == [];
  }

  /** Back at Start with both of its pairs travelled, the search has nowhere to go. */
  lemma OneBlockedAtStart(visited: set<(Stop, Stop)>)
    requires (Start, Cross) in visited && (Start, Side) in visited
    ensures Find(DetourGraph(), 1, Start, Goal, visited) == Outcome(false, [], visited)
  {
    var g := DetourGraph();
    DetourNeighbours();
    WalksOn(Start, 1, visited);
    ExploreSkips(g, [Wrong, Right], 1, Start, Goal, visited);
    assert [Wrong, Right][1..] == [Right];
    ExploreSkips(g, [Right], 1, Start, Goal, visited);
    assert [Right][1..] == [];
  }

  /**
   Arriving at Cross with the value 1, the way on to Last is already travelled
   and the way back to Start wants the value 0.
   */
  lemma OneBlockedAtCross(visited: set<(Stop, Stop)>)
    requires (Cross, Last) in visited
    ensures Find(DetourGraph(), 1, Cross, Goal, visited) == Outcome(false, [], visited)
  {
    var g := DetourGraph();
    DetourNeighbours();
    WalksOn(Cross, 1, visited);
    ExploreSkips(g, [CrossLast, WrongBack], 1, Cross, Goal, visited);
    assert [CrossLast, WrongBack][1..] == [WrongBack];
    ExploreSkips(g, [WrongBack], 1, Cross, Goal, visited);
    assert [WrongBack][1..] == [];
  }

  /** The travelled set once the search has been through Cross, back to Start and on to Side. */
  function AtSide(): set<(Stop, Stop)>
  {
    {(Start, Cross), (Cross, Last), (Cross, Start), (Start, Side)}
  }

  /** The travelled set when the whole search is over. */
  function AllTravelled(): set<(Stop, Stop)>
  {
    AtSide() + {(Side, Cross), (Side, Start)}
  }

  /** From Side with the value 1, Cross is blocked and the way back to Start is blocked too. */
  lemma OneFailsFromSide()
    ensures Find(DetourGraph(), 1, Side, Goal, AtSide()) == Outcome(false, [], AllTravelled())
  {
    var g := DetourGraph();
    DetourNeighbours();
    WalksOn(Side, 1, AtSide());
    var v5 := AtSide() + {(Side, Cross)};
    OneBlockedAtCross(v5);
    ExploreFailsOn(g, [SideCross, RightBack], 1, Side, Goal, AtSide(), v5);
    assert [SideCross, RightBack][1..] == [RightBack];
    assert v5 + {(Side, Start)} == AllTravelled();
    OneBlockedAtStart(AllTravelled());
    ExploreFailsOn(g, [RightBack], 1, Side, Goal, v5, AllTravelled());
    assert [RightBack][1..] == [];
  }

  /** Back at Start with the value 1, Cross is travelled, so the search turns to Side. */
  lemma OneFailsFromStartAgain()
    ensures Find(DetourGraph(), 1, Start, Goal, {(Start, Cross), (Cross, Last), (Cross, Start)})
      == Outcome(false, [], AllTravelled())
  {
    var g := DetourGraph();
    var v3 := {(Start, Cross), (Cross, Last), (Cross, Start)};
    DetourNeighbours();
    WalksOn(Start, 1, v3);
    ExploreSkips(g, [Wrong, Right], 1, Start, Goal, v3);
    assert [Wrong, Right][1..] == [Right];
    OneFailsFromSide();
    assert v3 + {(Start, Side)} == AtSide();
    ExploreFailsOn(g, [Right], 1, Start, Goal, v3, AllTravelled());
    assert [Right][1..] == [];
  }

  /**
   From Cross with the value 0 the search fails at Last, then walks back to
   Start with the value 1 and fails there too, leaving every pair it tried
   travelled.
   */
  lemma ZeroFailsFromCross()
    ensures Find(DetourGraph(), 0, Cross, Goal, {(Start, Cross)}) == Outcome(false, [], AllTravelled())
  {
    var g := DetourGraph();
    var v1 := {(Start, Cross)};
    var v2 := {(Start, Cross), (Cross, Last)};
    DetourNeighbours();
    WalksOn(Cross, 0, v1);
    assert v1 + {(Cross, Last)} == v2;
    ZeroStuckAtLast(v2);
    ExploreFailsOn(g, [CrossLast, WrongBack], 0, Cross, Goal, v1, v2);
    assert [CrossLast, WrongBack][1..] == [WrongBack];
    assert v2 + {(Cross, Start)} == {(Start, Cross), (Cross, Last), (Cross, Start)};
    OneFailsFromStartAgain();
    ExploreFailsOn(g, [WrongBack], 0, Cross, Goal, v2, AllTravelled());
    assert [WrongBack][1..] == [];
  }

  /** The gated chain Start, Side, Cross, Last, Goal for the value 1. */
  lemma DetourPath()
    ensures var path := [Right, SideCross, CrossLast, LastGoal];
      Chain(path, Start, Goal) && InGraph(DetourGraph(), path) && Gated(path, 1)
  {
    var path := [Right, SideCross, CrossLast, LastGoal];
    assert Gated(path[3..], 1) by { assert path[3..][1..] == []; }
    assert Gated(path[2..], 1) by { assert path[2..][1..] == path[3..]; }
    assert Gated(path[1..], 1) by { assert path[1..][1..] == path[2..]; }
  }

  /** The search from Start with the value 1 tries Cross first, and every pair on the way to Goal is travelled by the time it tries Side. */
  lemma DetourNotFound()
    ensures !Find(DetourGraph(), 1, Start, Goal, {}).found
  {
    var g := DetourGraph();
    var none: set<(Stop, Stop)> := {};
    DetourNeighbours();
    WalksOn(Start, 1, none);
    assert none + {(Start, Cross)} == {(Start, Cross)};
    ZeroFailsFromCross();
    ExploreFailsOn(g, [Wrong, Right], 1, Start, Goal, none, AllTravelled());
    assert [Wrong, Right][1..] == [Right];
    ExploreSkips(g, [Right], 1, Start, Goal, AllTravelled());
    assert [Right][1..] == [];
  }

  /**
   `AddRange` on an empty translator builds a well-formed graph from `Detour`
   that holds a gated chain Start, Side, Cross, Last, Goal for the value 1,
   but the search from Start with the value 1 does not find Goal.
   */
  lemma SharedVisitedMissesPath()
    ensures AddRange(Empty(), Detour) == Success(DetourGraph()) && WellFormed(DetourGraph())
    ensures var path := [Right, SideCross, CrossLast, LastGoal];
      Chain(path, Start, Goal) && InGraph(DetourGraph(), path) && Gated(path, 1)
    ensures !Find(DetourGraph(), 1, Start, Goal, {}).found
  {
    DetourRegisters();
    DetourPath();
    DetourNotFound();
  }
}

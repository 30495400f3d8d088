/**
 * Baseball elimination: a team is eliminated when it cannot finish with
 * at least as many wins as every other team, whatever the outcome of the
 * remaining games. A division is given as parallel tables (the file
 * parsing that fills them is not part of this model).
 *
 * The check has two stages. The trivial stage lists the teams that already
 * have more wins than the team can reach. Otherwise a flow network is built
 * (source -> game -> team -> sink) and the teams on the source side of the
 * minimum cut form the certificate.
 */
module Baseball {
  import opened Wrappers
  import opened FlowNetworks
  import Grid

  datatype Division = Division(
    names: seq<string>,
    index: map<string, nat>,
    wins: seq<int>,
    losses: seq<int>,
    remaining: seq<int>,
    against: seq<seq<int>>)

  /** `k` is the last position of `names` holding `name`. */
  predicate IsLastPosition(names: seq<string>, name: string, k: int) {
    && 0 <= k < |names| && names[k] == name
    && forall j :: k < j < |names| ==> names[j] != name
  }

  /** A name has at most one last position. */
  lemma LastPositionUnique(names: seq<string>, name: string, k: int, l: int)
    requires IsLastPosition(names, name, k) && IsLastPosition(names, name, l)
    ensures k == l
  {
  }

  /**
   * The name-to-index map built by putting the names in order, so a
   * repeated name maps to its last position.
   */
  function IndexOf(names: seq<string>): (m: map<string, nat>)
    ensures forall name :: name in m <==> name in names
    ensures forall name :: name in m ==> IsLastPosition(names, name, m[name])
  {
    if |names| == 0 then map[]
    else IndexOf(names[..|names| - 1])[names[|names| - 1] := |names| - 1]
  }

  /**
   * A division with its name index, as the constructor leaves it: the tables
   * as read, and every listed team found at its last listed position.
   */
  function NewDivision(names: seq<string>, wins: seq<int>, losses: seq<int>, remaining: seq<int>,
                       against: seq<seq<int>>): (d: Division)
    ensures d.names == names && d.wins == wins && d.losses == losses
    ensures d.remaining == remaining && d.against == against
    ensures forall name :: name in d.index <==> name in names
    ensures forall name :: name in d.index ==> IsLastPosition(names, name, d.index[name])
    ensures Valid(d) <==>
              && |wins| == |names| && |losses| == |names| && |remaining| == |names| && |against| == |names|
              && (forall i :: 0 <= i < |names| ==> |against[i]| == |names|)
              && (forall i, j :: 0 <= i < |names| && 0 <= j < |names| ==> against[i][j] >= 0)
  {
    Division(names, IndexOf(names), wins, losses, remaining, against)
  }

  /** All tables have one entry per team, and game counts are not negative. */
  predicate Valid(d: Division) {
    var n := |d.names|;
    && d.index == IndexOf(d.names)
    && |d.wins| == n && |d.losses| == n && |d.remaining| == n && |d.against| == n
    && (forall i :: 0 <= i < n ==> |d.against[i]| == n)
    && (forall i, j :: 0 <= i < n && 0 <= j < n ==> d.against[i][j] >= 0)
  }

  function NumberOfTeams(d: Division): (n: nat)
    requires Valid(d)
    ensures n == |d.wins| == |d.against|
  {
    |d.names|
  }

  /**
   * `getTeamIndex`: the position of a known team, the last one listed when
   * the name repeats (later `put`s overwrite earlier ones); an unknown name
   * is an illegal argument.
   */
  function GetTeamIndex(d: Division, team: string): (r: Result<nat>)
    requires Valid(d)
    ensures r.Ok? <==> team in d.names
    ensures r.Err? ==> r.error == IllegalArgument
    ensures r.Ok? ==> IsLastPosition(d.names, team, r.value)
  {
    if team in d.index then Ok(d.index[team]) else Err(IllegalArgument)
  }

  /** With no name listed twice, each team's index is its own position. */
  lemma DistinctNamesIndexThemselves(d: Division, k: int)
    requires Valid(d) && 0 <= k < |d.names|
    requires forall i, j :: 0 <= i < j < |d.names| ==> d.names[i] != d.names[j]
    ensures GetTeamIndex(d, d.names[k]) == Ok(k)
  {
    LastPositionUnique(d.names, d.names[k], k, GetTeamIndex(d, d.names[k]).value);
  }

  /**
   * `wins`: a known team's wins, read at its last listed position (the only
   * one, by `LastPositionUnique`); an unknown name is an illegal argument.
   */
  function Wins(d: Division, team: string): (r: Result<int>)
    requires Valid(d)
    ensures r.Ok? <==> team in d.names
    ensures r.Err? ==> r.error == IllegalArgument
    ensures r.Ok? ==> exists k :: IsLastPosition(d.names, team, k) && r.value == d.wins[k]
  {
    var i :- GetTeamIndex(d, team);
    Ok(d.wins[i])
  }

  function Losses(d: Division, team: string): (r: Result<int>)
    requires Valid(d)
    ensures r.Ok? <==> team in d.names
    ensures r.Err? ==> r.error == IllegalArgument
    ensures r.Ok? ==> exists k :: IsLastPosition(d.names, team, k) && r.value == d.losses[k]
  {
    var i :- GetTeamIndex(d, team);
    Ok(d.losses[i])
  }

  function Remaining(d: Division, team: string): (r: Result<int>)
    requires Valid(d)
    ensures r.Ok? <==> team in d.names
    ensures r.Err? ==> r.error == IllegalArgument
    ensures r.Ok? ==> exists k :: IsLastPosition(d.names, team, k) && r.value == d.remaining[k]
  {
    var i :- GetTeamIndex(d, team);
    Ok(d.remaining[i])
  }

  /** `against`: games left between two known teams; either name unknown is an illegal argument. */
  function Against(d: Division, team1: string, team2: string): (r: Result<int>)
    requires Valid(d)
    ensures r.Ok? <==> team1 in d.names && team2 in d.names
    ensures r.Err? ==> r.error == IllegalArgument
    ensures r.Ok? ==> exists k, l :: IsLastPosition(d.names, team1, k) && IsLastPosition(d.names, team2, l)
                        && r.value == d.against[k][l]
  {
    var i :- GetTeamIndex(d, team1);
    var j :- GetTeamIndex(d, team2);
    Ok(d.against[i][j])
  }

  // ---------------------------------------------------------------------------
  // The trivial check

  /** The most wins team `x` can still reach. */
  function MaxWins(d: Division, x: nat): int
    requires Valid(d) && x < |d.names|
  {
    d.wins[x] + d.remaining[x]
  }

  /** Team `i` already has more wins than `x` can reach. */
  predicate Ahead(d: Division, x: nat, i: nat)
    requires Valid(d) && x < |d.names|
  {
    i < |d.names| && i != x && d.wins[i] > MaxWins(d, x)
  }

  predicate StrictlyIncreasing(r: seq<nat>) {
    forall a, b :: 0 <= a < b < |r| ==> r[a] < r[b]
  }

  /**
   * `teamsWithHigherWinsThanScheduledMatches`, from index `i` on: exactly the
   * teams ahead of `x`, in index order.
   */
  function TrivialFrom(d: Division, x: nat, i: nat): (r: seq<nat>)
    requires Valid(d) && x < |d.names| && i <= |d.names|
    ensures StrictlyIncreasing(r)
    ensures forall k :: 0 <= k < |r| ==> i <= r[k] && Ahead(d, x, r[k])
    ensures forall j :: i <= j < |d.names| && Ahead(d, x, j) ==> j in r
    decreases |d.names| - i
  {
    if i == |d.names| then []
    else
      var rest := TrivialFrom(d, x, i + 1);
      if i != x && d.wins[i] > MaxWins(d, x) then [i] + rest else rest
  }

  function Trivial(d: Division, x: nat): (r: seq<nat>)
    requires Valid(d) && x < |d.names|
    ensures StrictlyIncreasing(r)
    ensures forall k :: 0 <= k < |r| ==> Ahead(d, x, r[k])
    ensures forall j :: 0 <= j < |d.names| && Ahead(d, x, j) ==> j in r
  {
    TrivialFrom(d, x, 0)
  }

  // ---------------------------------------------------------------------------
  // Vertices of the elimination network

  /** Source 0, game vertices `i*N+j+1`, team vertices `N*N+1+i`, sink `N*N+N+1`. */
  const SOURCE: nat := 0

  function GameVertex(n: nat, i: nat, j: nat): nat {
    Grid.Flatten(i, j, n) + 1
  }

  function TeamVertex(n: nat, i: nat): nat {
    n * n + 1 + i
  }

  function SinkVertex(n: nat): nat {
    n * n + n + 1
  }

  function VertexCount(n: nat): nat {
    n * n + n + 2
  }

  /**
   * The vertex numbering keeps the four kinds apart: game vertices lie in
   * `1..N*N`, team vertices in `N*N+1..N*N+N`, the sink right after them and
   * all below the vertex count; distinct games and distinct teams get
   * distinct vertices.
   */
  lemma VertexLayout(n: nat, i: nat, j: nat, i': nat, j': nat)
    requires i < n && j < n && i' < n && j' < n
    ensures 1 <= GameVertex(n, i, j) <= n * n
    ensures n * n < TeamVertex(n, i) < SinkVertex(n) < VertexCount(n)
    ensures GameVertex(n, i, j) == GameVertex(n, i', j') ==> i == i' && j == j'
    ensures TeamVertex(n, i) == TeamVertex(n, i') ==> i == i'
  {
    Grid.FlattenInRange(i, j, n, n);
    if GameVertex(n, i, j) == GameVertex(n, i', j') {
      Grid.FlattenInjective(i, j, i', j', n);
    }
  }

  // ---------------------------------------------------------------------------
  // Scheduled games and the network edges

  datatype Game = Game(i: nat, j: nat)

  /** A pair the network gets a game vertex for: `i < j`, neither is `x`, and games remain. */
  predicate Scheduled(d: Division, x: nat, g: Game)
    requires Valid(d)
  {
    g.i < g.j < |d.names| && g.i != x && g.j != x && d.against[g.i][g.j] != 0
  }

  /** The nested loop over `against`, from row `i`, column `j`, skipping the pairs without a game vertex. */
  function GamesFrom(d: Division, x: nat, i: nat, j: nat): (gs: seq<Game>)
    requires Valid(d) && j <= |d.names|
    ensures forall k :: 0 <= k < |gs| ==> Scheduled(d, x, gs[k])
    ensures forall k :: 0 <= k < |gs| ==> gs[k].i > i || (gs[k].i == i && gs[k].j >= j)
    ensures forall g: Game :: Scheduled(d, x, g) && (g.i > i || (g.i == i && g.j >= j)) ==> g in gs
    decreases |d.names| - i, |d.names| - j
  {
    if i >= |d.names| then []
    else if j == |d.names| then GamesFrom(d, x, i + 1, 0)
    else
      var rest := GamesFrom(d, x, i, j + 1);
      if i == j || i == x || j == x || d.against[i][j] == 0 || i > j then rest
      else [Game(i, j)] + rest
  }

  function Games(d: Division, x: nat): (gs: seq<Game>)
    requires Valid(d)
    ensures forall k :: 0 <= k < |gs| ==> Scheduled(d, x, gs[k])
    ensures forall g: Game :: Scheduled(d, x, g) ==> g in gs
  {
    GamesFrom(d, x, 0, 0)
  }

  /** The three edges of one game: source to game, and game to each of its two teams with `INF` capacity. */
  function GameEdges(n: nat, d: Division, gs: seq<Game>): seq<FlowEdge>
    requires Valid(d) && n == |d.names|
    requires forall k :: 0 <= k < |gs| ==> gs[k].i < n && gs[k].j < n
  {
    if |gs| == 0 then []
    else
      var g := gs[0];
      var v := GameVertex(n, g.i, g.j);
      [NewEdge(SOURCE, v, d.against[g.i][g.j]),
       NewEdge(v, TeamVertex(n, g.i), INF),
       NewEdge(v, TeamVertex(n, g.j), INF)]
      + GameEdges(n, d, gs[1..])
  }

  /** The team-to-sink edges for teams `i..N-1` other than `x`, with capacity `maxWins(x) - wins[i]`. */
  function TeamEdgesFrom(d: Division, x: nat, i: nat): seq<FlowEdge>
    requires Valid(d) && x < |d.names| && i <= |d.names|
    decreases |d.names| - i
  {
    if i == |d.names| then []
    else
      var rest := TeamEdgesFrom(d, x, i + 1);
      if i == x then rest
      else [NewEdge(TeamVertex(|d.names|, i), SinkVertex(|d.names|), MaxWins(d, x) - d.wins[i])] + rest
  }

  /** Every edge of the elimination network, in the order they are added. */
  function EliminationEdges(d: Division, x: nat): seq<FlowEdge>
    requires Valid(d) && x < |d.names|
  {
    GameEdges(|d.names|, d, Games(d, x)) + TeamEdgesFrom(d, x, 0)
  }

  /** `addEdge` for each edge in turn. */
  function AddAll(net: FlowNetwork, es: seq<FlowEdge>): (r: Result<FlowNetwork>)
    requires |net.adj| == net.v
    ensures r.Ok? <==> forall k :: 0 <= k < |es| ==> es[k].from < net.v && es[k].to < net.v
    ensures r.Ok? ==> r.value.v == net.v && r.value.edges == net.edges + es && |r.value.adj| == net.v
    ensures r.Ok? && WF(net) && (forall k :: 0 <= k < |es| ==> es[k].from != es[k].to) ==> WF(r.value)
    decreases |es|
  {
    if |es| == 0 then Ok(net)
    else
      match AddEdge(net, es[0])
      case Err(e) => Err(e)
      case Ok(next) =>
        var r := AddAll(next, es[1..]);
        assert forall k :: 0 <= k < |es[1..]| ==> es[1..][k] == es[k + 1];
        assert net.edges + es == next.edges + es[1..];
        r
  }

  // ---------------------------------------------------------------------------
  // Shape of the elimination network

  /** An edge as built here: inside the network, not a loop, never into the source, no flow yet, capacity not negative. */
  predicate EdgeFits(e: FlowEdge, vertices: nat) {
    e.from < vertices && e.to < vertices && e.from != e.to && e.to != SOURCE && e.flow == 0 && e.capacity >= 0
  }

  predicate AllFit(E: seq<FlowEdge>, vertices: nat) {
    forall k :: 0 <= k < |E| ==> EdgeFits(E[k], vertices)
  }

  lemma AllFitAppend(A: seq<FlowEdge>, B: seq<FlowEdge>, vertices: nat)
    requires AllFit(A, vertices) && AllFit(B, vertices)
    ensures AllFit(A + B, vertices)
  {
    forall k | 0 <= k < |A + B|
      ensures EdgeFits((A + B)[k], vertices)
    {
      if k >= |A| {
        assert (A + B)[k] == B[k - |A|];
      }
    }
  }

  predicate InTable(n: nat, gs: seq<Game>) {
    forall k :: 0 <= k < |gs| ==> gs[k].i < n && gs[k].j < n
  }

  lemma {:induction false} GameEdgesFit(n: nat, d: Division, gs: seq<Game>)
    requires Valid(d) && n == |d.names| && InTable(n, gs)
    ensures AllFit(GameEdges(n, d, gs), VertexCount(n))
  {
    if |gs| > 0 {
      var g := gs[0];
      VertexLayout(n, g.i, g.j, g.i, g.j);
      VertexLayout(n, g.j, g.i, g.j, g.i);
      var v := GameVertex(n, g.i, g.j);
      var head := [NewEdge(SOURCE, v, d.against[g.i][g.j]),
                   NewEdge(v, TeamVertex(n, g.i), INF),
                   NewEdge(v, TeamVertex(n, g.j), INF)];
      assert AllFit(head, VertexCount(n));
      GameEdgesFit(n, d, gs[1..]);
      AllFitAppend(head, GameEdges(n, d, gs[1..]), VertexCount(n));
    }
  }

  lemma {:induction false} TeamEdgesFit(d: Division, x: nat, i: nat)
    requires Valid(d) && x < |d.names| && i <= |d.names|
    requires forall j :: 0 <= j < |d.names| ==> !Ahead(d, x, j)
    ensures AllFit(TeamEdgesFrom(d, x, i), VertexCount(|d.names|))
    decreases |d.names| - i
  {
    if i < |d.names| {
      var n := |d.names|;
      TeamEdgesFit(d, x, i + 1);
      if i != x {
        VertexLayout(n, i, 0, i, 0);
        assert !Ahead(d, x, i);
        var e := NewEdge(TeamVertex(n, i), SinkVertex(n), MaxWins(d, x) - d.wins[i]);
        assert AllFit([e], VertexCount(n));
        AllFitAppend([e], TeamEdgesFrom(d, x, i + 1), VertexCount(n));
      }
    }
  }

  /** When nobody is trivially ahead, every edge of the elimination network fits. */
  lemma EliminationEdgesFit(d: Division, x: nat)
    requires Valid(d) && x < |d.names| && Trivial(d, x) == []
    ensures AllFit(EliminationEdges(d, x), VertexCount(|d.names|))
  {
    var n := |d.names|;
    var gs := Games(d, x);
    assert InTable(n, gs);
    GameEdgesFit(n, d, gs);
    TeamEdgesFit(d, x, 0);
    AllFitAppend(GameEdges(n, d, gs), TeamEdgesFrom(d, x, 0), VertexCount(n));
  }

  // ---------------------------------------------------------------------------
  // Sums over the scheduled games

  /** Games left among the other teams: the capacity out of the source. */
  function GamesTotal(d: Division, gs: seq<Game>): int
    requires Valid(d) && InTable(|d.names|, gs)
  {
    if |gs| == 0 then 0 else d.against[gs[0].i][gs[0].j] + GamesTotal(d, gs[1..])
  }

  /** Games whose game vertex lies in `S`. */
  function GamesIn(d: Division, gs: seq<Game>, S: seq<bool>): int
    requires Valid(d) && InTable(|d.names|, gs)
  {
    if |gs| == 0 then 0
    else
      (if InSet(S, GameVertex(|d.names|, gs[0].i, gs[0].j)) then d.against[gs[0].i][gs[0].j] else 0)
      + GamesIn(d, gs[1..], S)
  }

  /** Games both of whose team vertices lie in `S`. */
  function GamesWithin(d: Division, gs: seq<Game>, S: seq<bool>): int
    requires Valid(d) && InTable(|d.names|, gs)
  {
    if |gs| == 0 then 0
    else
      (if InSet(S, TeamVertex(|d.names|, gs[0].i)) && InSet(S, TeamVertex(|d.names|, gs[0].j))
       then d.against[gs[0].i][gs[0].j] else 0)
      + GamesWithin(d, gs[1..], S)
  }

  /** Games left between two teams of `R`. */
  function GamesAmongFrom(d: Division, gs: seq<Game>, R: seq<nat>): int
    requires Valid(d) && InTable(|d.names|, gs)
  {
    if |gs| == 0 then 0
    else
      (if gs[0].i in R && gs[0].j in R then d.against[gs[0].i][gs[0].j] else 0)
      + GamesAmongFrom(d, gs[1..], R)
  }

  function GamesAmong(d: Division, x: nat, R: seq<nat>): int
    requires Valid(d)
  {
    var gs := Games(d, x);
    assert InTable(|d.names|, gs);
    GamesAmongFrom(d, gs, R)
  }

  /** Total wins of the teams in `R` (indices outside the table count nothing). */
  function SumWins(d: Division, R: seq<nat>): int {
    if |R| == 0 then 0 else (if R[0] < |d.wins| then d.wins[R[0]] else 0) + SumWins(d, R[1..])
  }

  /**
   * `R` proves that `x` is eliminated: the teams of `R` already have, with
   * the games still to be played among themselves, more wins than `|R|`
   * teams can share if none of them finishes above `x`'s best total.
   */
  predicate Certifies(d: Division, x: nat, R: seq<nat>)
    requires Valid(d) && x < |d.names|
  {
    && R != [] && StrictlyIncreasing(R)
    && (forall k :: 0 <= k < |R| ==> R[k] < |d.names| && R[k] != x)
    && |R| * MaxWins(d, x) < SumWins(d, R) + GamesAmong(d, x, R)
  }

  lemma {:induction false} GamesAmongFromNonNegative(d: Division, gs: seq<Game>, R: seq<nat>)
    requires Valid(d) && InTable(|d.names|, gs)
    ensures GamesAmongFrom(d, gs, R) >= 0
  {
    if |gs| > 0 {
      GamesAmongFromNonNegative(d, gs[1..], R);
    }
  }

  /** The trivial certificate is a certificate: each of its teams alone has more wins than `x` can reach. */
  lemma TrivialCertifies(d: Division, x: nat)
    requires Valid(d) && x < |d.names| && Trivial(d, x) != []
    ensures Certifies(d, x, Trivial(d, x))
  {
    var R := Trivial(d, x);
    SumWinsAbove(d, x, R);
    var gs := Games(d, x);
    assert InTable(|d.names|, gs);
    GamesAmongFromNonNegative(d, gs, R);
  }

  lemma {:induction false} SumWinsAbove(d: Division, x: nat, R: seq<nat>)
    requires Valid(d) && x < |d.names|
    requires forall k :: 0 <= k < |R| ==> Ahead(d, x, R[k])
    ensures R != [] ==> |R| * MaxWins(d, x) < SumWins(d, R)
    ensures |R| * MaxWins(d, x) <= SumWins(d, R)
  {
    if |R| > 0 {
      SumWinsAbove(d, x, R[1..]);
      assert |R| * MaxWins(d, x) == (|R| - 1) * MaxWins(d, x) + MaxWins(d, x);
    }
  }

  // ---------------------------------------------------------------------------
  // Reading the certificate off the cut

  /** The loop over `inCut(teamStart + i)`: teams `i..N-1` other than `x` whose vertex lies in `S`, in index order. */
  function CutTeamsFrom(n: nat, x: nat, S: seq<bool>, i: nat): (r: seq<nat>)
    requires i <= n
    ensures StrictlyIncreasing(r)
    ensures forall k :: 0 <= k < |r| ==> i <= r[k] < n && r[k] != x
    ensures forall k :: k in r <==> i <= k < n && k != x && InSet(S, TeamVertex(n, k))
    decreases n - i
  {
    if i == n then []
    else
      var rest := CutTeamsFrom(n, x, S, i + 1);
      if i != x && InSet(S, TeamVertex(n, i)) then [i] + rest else rest
  }

  lemma {:induction false} GameEdgesCut(d: Division, gs: seq<Game>, S: seq<bool>)
    requires Valid(d) && InTable(|d.names|, gs) && InSet(S, SOURCE)
    requires CutCapacity(GameEdges(|d.names|, d, gs), S) < INF
    ensures CutCapacity(GameEdges(|d.names|, d, gs), S) == GamesTotal(d, gs) - GamesIn(d, gs, S)
    ensures GamesIn(d, gs, S) <= GamesWithin(d, gs, S)
  {
    var n := |d.names|;
    if |gs| > 0 {
      var g := gs[0];
      var v := GameVertex(n, g.i, g.j);
      var e0 := NewEdge(SOURCE, v, d.against[g.i][g.j]);
      var e1 := NewEdge(v, TeamVertex(n, g.i), INF);
      var e2 := NewEdge(v, TeamVertex(n, g.j), INF);
      var rest := GameEdges(n, d, gs[1..]);
      assert GameEdges(n, d, gs) == [e0, e1, e2] + rest;
      CutCapacityAppend([e0, e1, e2], rest, S);
      CutCapacityTriple(e0, e1, e2, S);
      GameEdgesFit(n, d, gs[1..]);
      CutCapacityNonNegative(rest, S);
      GameEdgesCut(d, gs[1..], S);
    }
  }

  lemma {:induction false} GameEdgesOutCap(d: Division, gs: seq<Game>)
    requires Valid(d) && InTable(|d.names|, gs)
    ensures OutCap(GameEdges(|d.names|, d, gs), SOURCE) == GamesTotal(d, gs)
  {
    var n := |d.names|;
    if |gs| > 0 {
      var g := gs[0];
      VertexLayout(n, g.i, g.j, g.i, g.j);
      var v := GameVertex(n, g.i, g.j);
      var e0 := NewEdge(SOURCE, v, d.against[g.i][g.j]);
      var e1 := NewEdge(v, TeamVertex(n, g.i), INF);
      var e2 := NewEdge(v, TeamVertex(n, g.j), INF);
      var rest := GameEdges(n, d, gs[1..]);
      assert GameEdges(n, d, gs) == [e0, e1, e2] + rest;
      OutCapAppend([e0, e1, e2], rest, SOURCE);
      OutCapTriple(e0, e1, e2, SOURCE);
      GameEdgesOutCap(d, gs[1..]);
    }
  }

  lemma {:induction false} TeamEdgesOutCap(d: Division, x: nat, i: nat)
    requires Valid(d) && x < |d.names| && i <= |d.names|
    ensures OutCap(TeamEdgesFrom(d, x, i), SOURCE) == 0
    decreases |d.names| - i
  {
    if i < |d.names| {
      TeamEdgesOutCap(d, x, i + 1);
    }
  }

  /** The team edges from team `i` on that `S` cuts carry, together, the room of the teams from `i` on in `S`. */
  ghost predicate TeamCutIs(d: Division, x: nat, S: seq<bool>, i: nat)
    requires Valid(d) && x < |d.names| && i <= |d.names|
  {
    var R := CutTeamsFrom(|d.names|, x, S, i);
    CutCapacity(TeamEdgesFrom(d, x, i), S) == |R| * MaxWins(d, x) - SumWins(d, R)
  }

  /** The team edges cut by `S` are those of the teams in `S`, each with its room below `x`'s best total. */
  lemma {:induction false} TeamEdgesCut(d: Division, x: nat, S: seq<bool>, i: nat)
    requires Valid(d) && x < |d.names| && i <= |d.names| && !InSet(S, SinkVertex(|d.names|))
    ensures TeamCutIs(d, x, S, i)
    decreases |d.names| - i
  {
    if i < |d.names| {
      TeamEdgesCut(d, x, S, i + 1);
      TeamEdgeStep(d, x, S, i);
    } else {
      assert CutTeamsFrom(|d.names|, x, S, i) == [] && TeamEdgesFrom(d, x, i) == [];
    }
  }

  /** Team `i`'s edge adds its room to the cut exactly when team `i` is in `S`. */
  lemma TeamEdgeStep(d: Division, x: nat, S: seq<bool>, i: nat)
    requires Valid(d) && x < |d.names| && i < |d.names| && !InSet(S, SinkVertex(|d.names|))
    requires TeamCutIs(d, x, S, i + 1)
    ensures TeamCutIs(d, x, S, i)
  {
    var n := |d.names|;
    var R := CutTeamsFrom(n, x, S, i + 1);
    var rest := TeamEdgesFrom(d, x, i + 1);
    var W := MaxWins(d, x);
    if i != x {
      var e := NewEdge(TeamVertex(n, i), SinkVertex(n), W - d.wins[i]);
      assert CutCapacity(TeamEdgesFrom(d, x, i), S) == CutEdge(e, S) + CutCapacity(rest, S) by {
        assert TeamEdgesFrom(d, x, i) == [e] + rest;
        CutCapacityAppend([e], rest, S);
        CutCapacityTriple(e, e, e, S);
      }
      if InSet(S, TeamVertex(n, i)) {
        assert CutTeamsFrom(n, x, S, i) == [i] + R;
        assert CutEdge(e, S) == W - d.wins[i];
        assert SumWins(d, [i] + R) == d.wins[i] + SumWins(d, R) by {
          assert ([i] + R)[1..] == R;
        }
        MulSucc(|R|, W);
      } else {
        assert CutTeamsFrom(n, x, S, i) == R;
      }
    } else {
      assert CutTeamsFrom(n, x, S, i) == R;
    }
  }

  lemma MulSucc(a: nat, w: int)
    ensures (a + 1) * w == a * w + w
  {
  }

  /** For scheduled games, "both team vertices in `S`" is "both teams in the certificate". */
  lemma {:induction false} GamesWithinIsAmong(d: Division, x: nat, gs: seq<Game>, S: seq<bool>)
    requires Valid(d) && x < |d.names| && InTable(|d.names|, gs)
    requires forall k :: 0 <= k < |gs| ==> Scheduled(d, x, gs[k])
    ensures GamesWithin(d, gs, S) == GamesAmongFrom(d, gs, CutTeamsFrom(|d.names|, x, S, 0))
  {
    if |gs| > 0 {
      GamesWithinIsAmong(d, x, gs[1..], S);
    }
  }

  /**
   * What the final cut says about the division. With `S` the vertices the
   * last search marked and `value` the flow, equal to the cut capacity:
   * the teams in `S` certify the elimination when there are any, and
   * otherwise the flow assigns every remaining game.
   */
  lemma CutCertificate(d: Division, x: nat, E: seq<FlowEdge>, S: seq<bool>, edgeTo: seq<int>, depth: seq<nat>)
    requires Valid(d) && x < |d.names| && Trivial(d, x) == []
    requires GamesTotal(d, Games(d, x)) < INF
    requires SameShape(EliminationEdges(d, x), E) && FlowBounds(E)
    requires SearchTree(E, VertexCount(|d.names|), SOURCE, S, edgeTo, depth)
    requires !S[SinkVertex(|d.names|)]
    requires NetOut(E, SOURCE) == CutCapacity(E, S)
    ensures var R := CutTeamsFrom(|d.names|, x, S, 0);
            (R != [] ==> Certifies(d, x, R))
            && (R == [] ==> NetOut(E, SOURCE) == GamesTotal(d, Games(d, x)))
  {
    var n := |d.names|;
    var gs := Games(d, x);
    assert InTable(n, gs);
    var GE := GameEdges(n, d, gs);
    var TE := TeamEdgesFrom(d, x, 0);
    var C := GE + TE;
    var R := CutTeamsFrom(n, x, S, 0);
    var value := NetOut(E, SOURCE);
    var G := GamesTotal(d, gs);
    // The value is at most the games out of the source.
    NetOutAtMostOutCap(E, SOURCE);
    OutCapOfShape(C, E, SOURCE);
    OutCapAppend(GE, TE, SOURCE);
    GameEdgesOutCap(d, gs);
    TeamEdgesOutCap(d, x, 0);
    assert value <= G;
    // The cut capacity splits into game edges and team edges.
    CutCapacityOfShape(C, E, S);
    CutCapacityAppend(GE, TE, S);
    EliminationEdgesFit(d, x);
    TeamEdgesFit(d, x, 0);
    GameEdgesFit(n, d, gs);
    CutCapacityNonNegative(TE, S);
    CutCapacityNonNegative(GE, S);
    TeamEdgesCut(d, x, S, 0);
    GameEdgesCut(d, gs, S);
    GamesWithinIsAmong(d, x, gs, S);
    assert CutCapacity(TE, S) == |R| * MaxWins(d, x) - SumWins(d, R);
    assert GamesIn(d, gs, S) <= GamesAmong(d, x, R);
    if R != [] {
      ValueBelowGames(d, x, E, S, edgeTo, depth, R[0]);
    } else {
      assert GamesAmong(d, x, R) == 0 by {
        GamesAmongNone(d, gs);
      }
      GamesInNonNegative(d, gs, S);
    }
  }

  lemma {:induction false} GamesAmongNone(d: Division, gs: seq<Game>)
    requires Valid(d) && InTable(|d.names|, gs)
    ensures GamesAmongFrom(d, gs, []) == 0
  {
    if |gs| > 0 {
      GamesAmongNone(d, gs[1..]);
    }
  }

  lemma {:induction false} GamesInNonNegative(d: Division, gs: seq<Game>, S: seq<bool>)
    requires Valid(d) && InTable(|d.names|, gs)
    ensures GamesIn(d, gs, S) >= 0
  {
    if |gs| > 0 {
      GamesInNonNegative(d, gs[1..], S);
    }
  }

  /**
   * A team the search reached was reached through a game edge out of the
   * source that still had room, so the flow is below the games total.
   */
  lemma ValueBelowGames(d: Division, x: nat, E: seq<FlowEdge>, S: seq<bool>, edgeTo: seq<int>, depth: seq<nat>, k: nat)
    requires Valid(d) && x < |d.names| && Trivial(d, x) == []
    requires SameShape(EliminationEdges(d, x), E) && FlowBounds(E)
    requires SearchTree(E, VertexCount(|d.names|), SOURCE, S, edgeTo, depth)
    requires k < |d.names| && InSet(S, TeamVertex(|d.names|, k))
    ensures NetOut(E, SOURCE) < GamesTotal(d, Games(d, x))
  {
    var n := |d.names|;
    var gs := Games(d, x);
    assert InTable(n, gs);
    var C := EliminationEdges(d, x);
    EliminationEdgesFit(d, x);
    VertexLayout(n, k, 0, k, 0);
    var u := RootChild(E, VertexCount(n), SOURCE, S, edgeTo, depth, TeamVertex(n, k));
    var i := edgeTo[u];
    assert EdgeFits(C[i], VertexCount(n));
    assert E[i].from == SOURCE && E[i].to == u;
    NetOutBelowOutCap(E, SOURCE, i);
    OutCapOfShape(C, E, SOURCE);
    OutCapAppend(GameEdges(n, d, gs), TeamEdgesFrom(d, x, 0), SOURCE);
    GameEdgesOutCap(d, gs);
    TeamEdgesOutCap(d, x, 0);
  }

  // ---------------------------------------------------------------------------
  // The converse: a certificate rules out every full distribution

  /** The cut a certificate `R` induces: the source, the games between two teams of `R`, and the teams of `R`. */
  predicate InCertCut(n: nat, R: seq<nat>, v: nat) {
    || v == SOURCE
    || (n > 0 && 1 <= v <= n * n && (v - 1) / n in R && (v - 1) % n in R)
    || (n * n < v <= n * n + n && v - n * n - 1 in R)
  }

  function CertCut(n: nat, R: seq<nat>): (S: seq<bool>)
    ensures |S| == VertexCount(n)
  {
    seq(VertexCount(n), v requires 0 <= v => InCertCut(n, R, v))
  }

  lemma CertCutMembers(n: nat, R: seq<nat>, i: nat, j: nat)
    requires i < n && j < n
    ensures InSet(CertCut(n, R), SOURCE)
    ensures !InSet(CertCut(n, R), SinkVertex(n))
    ensures InSet(CertCut(n, R), GameVertex(n, i, j)) <==> i in R && j in R
    ensures InSet(CertCut(n, R), TeamVertex(n, i)) <==> i in R
  {
    VertexLayout(n, i, j, i, j);
    Grid.Unflatten(i, j, n);
    var v := GameVertex(n, i, j);
    assert v - 1 == Grid.Flatten(i, j, n);
    assert TeamVertex(n, i) - n * n - 1 == i;
  }

  /** Under a certificate's cut only the games not between two teams of `R` leave the source side. */
  lemma {:induction false} GameEdgesCertCut(d: Division, gs: seq<Game>, R: seq<nat>)
    requires Valid(d) && InTable(|d.names|, gs)
    ensures CutCapacity(GameEdges(|d.names|, d, gs), CertCut(|d.names|, R))
            == GamesTotal(d, gs) - GamesAmongFrom(d, gs, R)
  {
    var n := |d.names|;
    var S := CertCut(n, R);
    if |gs| > 0 {
      var g := gs[0];
      CertCutMembers(n, R, g.i, g.j);
      CertCutMembers(n, R, g.j, g.i);
      var v := GameVertex(n, g.i, g.j);
      var e0 := NewEdge(SOURCE, v, d.against[g.i][g.j]);
      var e1 := NewEdge(v, TeamVertex(n, g.i), INF);
      var e2 := NewEdge(v, TeamVertex(n, g.j), INF);
      var rest := GameEdges(n, d, gs[1..]);
      assert GameEdges(n, d, gs) == [e0, e1, e2] + rest;
      CutCapacityAppend([e0, e1, e2], rest, S);
      CutCapacityTriple(e0, e1, e2, S);
      assert CutEdge(e1, S) == 0 && CutEdge(e2, S) == 0;
      GameEdgesCertCut(d, gs[1..], R);
    }
  }

  /** Two strictly increasing sequences with the same elements are equal. */
  lemma {:induction false} SortedUnique(A: seq<nat>, B: seq<nat>)
    requires StrictlyIncreasing(A) && StrictlyIncreasing(B)
    requires forall k :: k in A <==> k in B
    ensures A == B
    decreases |A| + |B|
  {
    assert A != [] ==> A[0] in B;
    assert B != [] ==> B[0] in A;
    if A != [] && B != [] {
      assert A[0] == B[0] by {
        assert A[0] in B && B[0] in A;
        var a :| 0 <= a < |A| && A[a] == B[0];
        var b :| 0 <= b < |B| && B[b] == A[0];
        assert A[0] <= A[a] && B[0] <= B[b];
      }
      forall k ensures k in A[1..] <==> k in B[1..] {
        if k in A[1..] {
          var a :| 1 <= a < |A| && A[a] == k;
          assert A[0] < k && k in A && k in B;
          var b :| 0 <= b < |B| && B[b] == k;
          assert b != 0 && B[1..][b - 1] == k;
        }
        if k in B[1..] {
          var b :| 1 <= b < |B| && B[b] == k;
          assert B[0] < k && k in B && k in A;
          var a :| 0 <= a < |A| && A[a] == k;
          assert a != 0 && A[1..][a - 1] == k;
        }
      }
      SortedUnique(A[1..], B[1..]);
      assert A == [A[0]] + A[1..] && B == [B[0]] + B[1..];
    }
  }

  /** Reading the teams back off a certificate's cut gives the certificate. */
  lemma CertCutTeams(n: nat, x: nat, R: seq<nat>)
    requires StrictlyIncreasing(R) && forall k :: 0 <= k < |R| ==> R[k] < n && R[k] != x
    ensures CutTeamsFrom(n, x, CertCut(n, R), 0) == R
  {
    var R' := CutTeamsFrom(n, x, CertCut(n, R), 0);
    forall k: nat ensures k in R' <==> k in R {
      if k < n {
        CertCutMembers(n, R, k, k);
      }
    }
    SortedUnique(R', R);
  }

  /** A flow shaped like the elimination network stays inside its vertices. */
  lemma EliminationEndpoints(d: Division, x: nat, F: seq<FlowEdge>)
    requires Valid(d) && x < |d.names| && Trivial(d, x) == []
    requires SameShape(EliminationEdges(d, x), F)
    ensures EndpointsIn(F, VertexCount(|d.names|))
  {
    EliminationEdgesFit(d, x);
    assert forall i :: 0 <= i < |F| ==> EdgeFits(EliminationEdges(d, x)[i], VertexCount(|d.names|));
  }

  /**
   * A certificate rules out every feasible flow that assigns all remaining
   * games: the flow is at most the capacity of the certificate's cut, which
   * the certificate's inequality puts below the games total.
   */
  lemma CertificateExcludesFlow(d: Division, x: nat, R: seq<nat>, F: seq<FlowEdge>)
    requires Valid(d) && x < |d.names| && Trivial(d, x) == []
    requires Certifies(d, x, R)
    requires SameShape(EliminationEdges(d, x), F) && FlowBounds(F)
    requires Conserved(F, SOURCE, SinkVertex(|d.names|))
    ensures NetOut(F, SOURCE) < GamesTotal(d, Games(d, x))
  {
    var n := |d.names|;
    var gs := Games(d, x);
    assert InTable(n, gs);
    var S := CertCut(n, R);
    var GE := GameEdges(n, d, gs);
    var TE := TeamEdgesFrom(d, x, 0);
    CertCutMembers(n, R, x, x);
    EliminationEndpoints(d, x, F);
    VertexLayout(n, x, x, x, x);
    FlowAtMostCut(F, VertexCount(n), SOURCE, SinkVertex(n), S);
    CutCapacityOfShape(EliminationEdges(d, x), F, S);
    CutCapacityAppend(GE, TE, S);
    GameEdgesCertCut(d, gs, R);
    TeamEdgesCut(d, x, S, 0);
    CertCutTeams(n, x, R);
  }

  // ---------------------------------------------------------------------------
  // The public operations

  /** Every team's network stays below the `Integer.MAX_VALUE` capacity of the game-to-team edges. */
  predicate Bounded(d: Division)
    requires Valid(d)
  {
    forall x :: 0 <= x < |d.names| ==> GamesTotal(d, Games(d, x)) < INF
  }

  /**
   * A flow on the elimination network that respects every capacity, is
   * conserved away from the source and the sink, and assigns every
   * remaining game: a way for the other teams to split their games without
   * any of them passing `x`'s best total.
   */
  ghost predicate FullDistribution(d: Division, x: nat, F: seq<FlowEdge>)
    requires Valid(d) && x < |d.names|
  {
    && SameShape(EliminationEdges(d, x), F) && FlowBounds(F)
    && Conserved(F, SOURCE, SinkVertex(|d.names|))
    && NetOut(F, SOURCE) == GamesTotal(d, Games(d, x))
  }

  /**
   * `checkForWinDistribution`: build the network, run Ford-Fulkerson and
   * list the teams on the source side of the final cut. A non-empty list
   * certifies the elimination, and then no full distribution exists; an
   * empty list comes with a full distribution.
   */
  method CheckForWinDistribution(d: Division, x: nat) returns (cert: seq<nat>, ghost flow: seq<FlowEdge>)
    requires Valid(d) && x < |d.names| && Trivial(d, x) == []
    requires GamesTotal(d, Games(d, x)) < INF
    ensures StrictlyIncreasing(cert)
    ensures forall k :: 0 <= k < |cert| ==> cert[k] < |d.names| && cert[k] != x
    ensures cert != [] ==> Certifies(d, x, cert)
    ensures cert != [] ==> forall F :: FullDistribution(d, x, F) ==> false
    ensures cert == [] ==> FullDistribution(d, x, flow)
  {
    var n := |d.names|;
    var E := EliminationEdges(d, x);
    EliminationEdgesFit(d, x);
    VertexLayout(n, x, x, x, x);
    var built := AddAll(NewNetwork(VertexCount(n)), E);
    var net := built.value;
    var res, value, marked, edgeTo;
    ghost var depth;
    res, value, marked, edgeTo, depth := FordFulkerson(net, SOURCE, SinkVertex(n));
    cert := CutTeamsFrom(n, x, marked, 0);
    flow := res.edges;
    CutCertificate(d, x, flow, marked, edgeTo, depth);
    if cert != [] {
      forall F | FullDistribution(d, x, F) ensures false {
        CertificateExcludesFlow(d, x, cert, F);
      }
    }
  }

  /**
   * `certificateOfElimination`: `None` (Java's `null`) when the team can
   * still finish first, otherwise the names of a certificate, the trivial
   * one when some team is already out of reach. An unknown name is an
   * illegal argument.
   */
  method CertificateOfElimination(d: Division, team: string)
    returns (r: Result<Option<seq<string>>>, ghost R: seq<nat>)
    requires Valid(d) && Bounded(d)
    ensures r.Err? <==> team !in d.names
    ensures r.Err? ==> r.error == IllegalArgument
    ensures r.Ok? ==> team in d.index && var x := d.index[team];
              && (r.value.Some? <==> exists C :: Certifies(d, x, C))
              && (r.value.Some? ==> Certifies(d, x, R)
                                    && r.value.value == seq(|R|, k requires 0 <= k < |R| => d.names[R[k]]))
              && (r.value.Some? && Trivial(d, x) != [] ==> R == Trivial(d, x))
  {
    var i := GetTeamIndex(d, team);
    if i.Err? {
      return Err(i.error), [];
    }
    var x := i.value;
    var ahead := Trivial(d, x);
    if ahead != [] {
      TrivialCertifies(d, x);
      return Ok(Some(seq(|ahead|, k requires 0 <= k < |ahead| => d.names[ahead[k]]))), ahead;
    }
    var cut, flow := CheckForWinDistribution(d, x);
    if cut != [] {
      return Ok(Some(seq(|cut|, k requires 0 <= k < |cut| => d.names[cut[k]]))), cut;
    }
    forall C | Certifies(d, x, C) ensures false {
      CertificateExcludesFlow(d, x, C, flow);
    }
    return Ok(None), [];
  }

  /** `isEliminated`: a certificate exists. */
  method IsEliminated(d: Division, team: string) returns (r: Result<bool>)
    requires Valid(d) && Bounded(d)
    ensures r.Err? <==> team !in d.names
    ensures r.Ok? ==> team in d.index && (r.value <==> exists C :: Certifies(d, d.index[team], C))
  {
    var cert;
    ghost var R;
    cert, R := CertificateOfElimination(d, team);
    if cert.Err? {
      return Err(cert.error);
    }
    return Ok(cert.value.Some?);
  }
}

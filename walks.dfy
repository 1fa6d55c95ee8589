// An independent reading of what the depth-first search counts: walks, given
// as sequences of indices into the move deltas (so two equal deltas give two
// walks), that stay on valid cells and never bring the running count of
// restricted cells to the threshold. `Count` is proved to be the number of
// such walks, and from that follow the threshold regimes, a bound, and
// monotonicity in the threshold.

module KnightWalks {
  import opened Knight

  // ---------------------------------------------------------------------
  // Walks and what they meet

  /** Every entry of `w` is the index of one of the move deltas. */
  predicate InRange(moveDeltas: seq<Delta>, w: seq<nat>)
  {
    forall j :: 0 <= j < |w| ==> w[j] < |moveDeltas|
  }

  /** The positions visited from `start` when the deltas that `w` indexes are
      taken one after another, `start` included. */
  function Walk(moveDeltas: seq<Delta>, start: Position, w: seq<nat>): (ps: seq<Position>)
    requires InRange(moveDeltas, w)
    ensures |ps| == |w| + 1 && ps[0] == start
    ensures forall j {:trigger w[j]} :: 0 <= j < |w| ==> ps[j + 1] == NextPosition(ps[j], moveDeltas[w[j]])
    decreases |w|
  {
    if w == [] then [start]
    else
      var rest := Walk(moveDeltas, NextPosition(start, moveDeltas[w[0]]), w[1..]);
      assert forall j :: 1 <= j < |w| ==> w[j] == w[1..][j - 1];
      [start] + rest
  }

  /** Every position of `ps` is a valid cell. */
  predicate OnBoard(board: Board, ps: seq<Position>)
  {
    forall j :: 0 <= j < |ps| ==> IsValidPosition(board, ps[j])
  }

  /** The number of restricted cells among `ps`, repeats counted again. */
  function Hits(board: Board, restrictedCharacters: set<string>, ps: seq<Position>): (n: nat)
    ensures n <= |ps|
  {
    if ps == [] then 0
    else Hits(board, restrictedCharacters, ps[..|ps| - 1]) + Hit(board, restrictedCharacters, ps[|ps| - 1])
  }

  /** The restricted count is the number of entries of `ps` that are valid
      restricted cells: each visit counts once, a revisit again. */
  lemma {:induction false} HitsCountsRestricted(board: Board, restrictedCharacters: set<string>, ps: seq<Position>)
    ensures Hits(board, restrictedCharacters, ps) ==
      |set i | 0 <= i < |ps| && IsValidPosition(board, ps[i]) && IsRestrictedCharacter(board, restrictedCharacters, ps[i])|
  {
    var here := set i | 0 <= i < |ps| && IsValidPosition(board, ps[i]) && IsRestrictedCharacter(board, restrictedCharacters, ps[i]);
    if ps == [] {
      assert here == {};
    } else {
      var n := |ps| - 1;
      var front := ps[..n];
      HitsCountsRestricted(board, restrictedCharacters, front);
      var before := set i | 0 <= i < |front| && IsValidPosition(board, front[i]) && IsRestrictedCharacter(board, restrictedCharacters, front[i]);
      if Hit(board, restrictedCharacters, ps[n]) == 1 {
        assert here == before + {n};
      } else {
        assert here == before;
      }
    }
  }

  /** The search counts walk `w` from `start`, entered with `hits` restricted
      cells already met, when every index names a delta, every position of
      the walk is valid, and no prefix of the walk brings the running count
      of restricted cells to the threshold. */
  predicate Accepted(cfg: Config, start: Position, hits: int, w: seq<nat>)
  {
    InRange(cfg.moveDeltas, w) &&
    var ps := Walk(cfg.moveDeltas, start, w);
    OnBoard(cfg.board, ps) &&
    NeverReaches(cfg.board, cfg.restrictedCharacters, cfg.maxRestrictedCharacters, hits, ps)
  }

  /** No non-empty prefix of `ps` brings `hits` plus its restricted count to
      `m`. */
  predicate NeverReaches(board: Board, restrictedCharacters: set<string>, m: int, hits: int, ps: seq<Position>)
  {
    forall i :: 1 <= i <= |ps| ==> hits + Hits(board, restrictedCharacters, ps[..i]) != m
  }

  // ---------------------------------------------------------------------
  // All index sequences of a given length

  function Pow(k: nat, n: nat): nat
  {
    if n == 0 then 1 else k * Pow(k, n - 1)
  }

  /** `[i] + t` for each `t` of `tails`, in order. */
  function Lead(i: nat, tails: seq<seq<nat>>): (r: seq<seq<nat>>)
    ensures |r| == |tails|
  {
    if tails == [] then []
    else [[i] + tails[0]] + Lead(i, tails[1..])
  }

  lemma {:induction false} LeadAt(i: nat, tails: seq<seq<nat>>)
    ensures forall a :: 0 <= a < |tails| ==> Lead(i, tails)[a] == [i] + tails[a]
  {
    if tails != [] {
      LeadAt(i, tails[1..]);
      var r := Lead(i, tails);
      forall a | 0 <= a < |tails|
        ensures r[a] == [i] + tails[a]
      {
        if a > 0 {
          assert r[a] == Lead(i, tails[1..])[a - 1];
          assert tails[1..][a - 1] == tails[a];
        }
      }
    }
  }

  /** `Lead(0, tails) + ... + Lead(k - 1, tails)`. */
  function Fan(k: nat, tails: seq<seq<nat>>): seq<seq<nat>>
  {
    if k == 0 then []
    else Fan(k - 1, tails) + Lead(k - 1, tails)
  }

  /** Every sequence of `n` indices below `k`, in lexicographic order. */
  function Choices(k: nat, n: nat): seq<seq<nat>>
  {
    if n == 0 then [[]] else Fan(k, Choices(k, n - 1))
  }

  lemma {:induction false} FanSize(k: nat, tails: seq<seq<nat>>)
    ensures |Fan(k, tails)| == k * |tails|
  {
    if k > 0 {
      FanSize(k - 1, tails);
      assert (k - 1) * |tails| + |tails| == k * |tails|;
    }
  }

  /** There are `k^n` sequences of `n` indices below `k`. */
  lemma {:induction false} ChoicesSize(k: nat, n: nat)
    ensures |Choices(k, n)| == Pow(k, n)
  {
    if n > 0 {
      ChoicesSize(k, n - 1);
      FanSize(k, Choices(k, n - 1));
    }
  }

  predicate Distinct<T(==)>(s: seq<T>)
  {
    forall a, b :: 0 <= a < b < |s| ==> s[a] != s[b]
  }

  lemma {:induction false} LeadMembers(i: nat, tails: seq<seq<nat>>, w: seq<nat>)
    ensures w in Lead(i, tails) <==> |w| > 0 && w[0] == i && w[1..] in tails
  {
    var r := Lead(i, tails);
    LeadAt(i, tails);
    if w in r {
      var a :| 0 <= a < |r| && r[a] == w;
      assert w[1..] == tails[a];
    }
    if |w| > 0 && w[0] == i && w[1..] in tails {
      var a :| 0 <= a < |tails| && tails[a] == w[1..];
      assert r[a] == w;
    }
  }

  lemma {:induction false} FanMembers(k: nat, tails: seq<seq<nat>>, w: seq<nat>)
    ensures w in Fan(k, tails) <==> |w| > 0 && w[0] < k && w[1..] in tails
  {
    if k > 0 {
      var front, last := Fan(k - 1, tails), Lead(k - 1, tails);
      assert Fan(k, tails) == front + last;
      FanMembers(k - 1, tails, w);
      LeadMembers(k - 1, tails, w);
      assert w in front + last <==> w in front || w in last;
    }
  }

  /** `Choices(k, n)` holds exactly the sequences of `n` indices below `k`. */
  lemma {:induction false} ChoicesMembers(k: nat, n: nat, w: seq<nat>)
    ensures w in Choices(k, n) <==> |w| == n && forall j :: 0 <= j < |w| ==> w[j] < k
  {
    if n > 0 {
      FanMembers(k, Choices(k, n - 1), w);
      if |w| > 0 {
        ChoicesMembers(k, n - 1, w[1..]);
        assert forall j :: 1 <= j < |w| ==> w[j] == w[1..][j - 1];
      }
    }
  }

  lemma DistinctConcat<T>(a: seq<T>, b: seq<T>)
    requires Distinct(a) && Distinct(b)
    requires forall i, j :: 0 <= i < |a| && 0 <= j < |b| ==> a[i] != b[j]
    ensures Distinct(a + b)
  {
    forall i, j | 0 <= i < j < |a + b|
      ensures (a + b)[i] != (a + b)[j]
    {
      if j < |a| {
        assert (a + b)[i] == a[i] && (a + b)[j] == a[j];
      } else if i >= |a| {
        assert (a + b)[i] == b[i - |a|] && (a + b)[j] == b[j - |a|];
      } else {
        assert (a + b)[i] == a[i] && (a + b)[j] == b[j - |a|];
      }
    }
  }

  lemma LeadDistinct(i: nat, tails: seq<seq<nat>>)
    requires Distinct(tails)
    ensures Distinct(Lead(i, tails))
  {
    var r := Lead(i, tails);
    LeadAt(i, tails);
    forall a, b | 0 <= a < b < |r|
      ensures r[a] != r[b]
    {
      assert r[a][1..] == tails[a] && r[b][1..] == tails[b];
    }
  }

  lemma {:induction false} FanHeads(k: nat, tails: seq<seq<nat>>)
    ensures forall a :: 0 <= a < |Fan(k, tails)| ==> |Fan(k, tails)[a]| > 0 && Fan(k, tails)[a][0] < k
  {
    if k > 0 {
      FanHeads(k - 1, tails);
      LeadAt(k - 1, tails);
      var front, last := Fan(k - 1, tails), Lead(k - 1, tails);
      var all := front + last;
      forall a | 0 <= a < |all|
        ensures |all[a]| > 0 && all[a][0] < k
      {
        if a < |front| {
          assert all[a] == front[a];
        } else {
          assert all[a] == last[a - |front|];
        }
      }
    }
  }

  lemma FanLeadApart(k: nat, tails: seq<seq<nat>>)
    ensures forall a, b :: 0 <= a < |Fan(k, tails)| && 0 <= b < |Lead(k, tails)| ==> Fan(k, tails)[a] != Lead(k, tails)[b]
  {
    var front, last := Fan(k, tails), Lead(k, tails);
    FanHeads(k, tails);
    LeadAt(k, tails);
    forall a, b | 0 <= a < |front| && 0 <= b < |last|
      ensures front[a] != last[b]
    {
      assert front[a][0] < k && last[b][0] == k;
    }
  }

  lemma {:induction false} FanDistinct(k: nat, tails: seq<seq<nat>>)
    requires Distinct(tails)
    ensures Distinct(Fan(k, tails))
  {
    if k > 0 {
      var front, last := Fan(k - 1, tails), Lead(k - 1, tails);
      FanDistinct(k - 1, tails);
      LeadDistinct(k - 1, tails);
      FanLeadApart(k - 1, tails);
      DistinctConcat(front, last);
    }
  }

  /** No index sequence is listed twice. */
  lemma {:induction false} ChoicesDistinct(k: nat, n: nat)
    ensures Distinct(Choices(k, n))
  {
    if n > 0 {
      ChoicesDistinct(k, n - 1);
      FanDistinct(k, Choices(k, n - 1));
    }
  }

  // ---------------------------------------------------------------------
  // Counting accepted walks

  /** How many of `ws` the search accepts from `start`. */
  function NumAccepted(cfg: Config, start: Position, hits: int, ws: seq<seq<nat>>): (n: nat)
    ensures n <= |ws|
  {
    if ws == [] then 0
    else (if Accepted(cfg, start, hits, ws[0]) then 1 else 0) + NumAccepted(cfg, start, hits, ws[1..])
  }

  lemma {:induction false} NumAcceptedConcat(cfg: Config, start: Position, hits: int, a: seq<seq<nat>>, b: seq<seq<nat>>)
    ensures NumAccepted(cfg, start, hits, a + b) == NumAccepted(cfg, start, hits, a) + NumAccepted(cfg, start, hits, b)
  {
    if a == [] {
      assert a + b == b;
    } else {
      assert (a + b)[0] == a[0] && (a + b)[1..] == a[1..] + b;
      NumAcceptedConcat(cfg, start, hits, a[1..], b);
    }
  }

  /** The accepted walks among `ws`, as a set. */
  ghost function AcceptedIn(cfg: Config, start: Position, hits: int, ws: seq<seq<nat>>): set<seq<nat>>
  {
    set w | w in ws && Accepted(cfg, start, hits, w)
  }

  lemma DistinctTail<T>(ws: seq<T>)
    requires ws != [] && Distinct(ws)
    ensures Distinct(ws[1..]) && ws[0] !in ws[1..]
  {
    var rest := ws[1..];
    forall a, b | 0 <= a < b < |rest|
      ensures rest[a] != rest[b]
    {
      assert rest[a] == ws[a + 1] && rest[b] == ws[b + 1];
    }
    forall a | 0 <= a < |rest|
      ensures rest[a] != ws[0]
    {
      assert rest[a] == ws[a + 1];
    }
  }

  lemma AcceptedInCons(cfg: Config, start: Position, hits: int, ws: seq<seq<nat>>)
    requires ws != []
    ensures AcceptedIn(cfg, start, hits, ws)
         == AcceptedIn(cfg, start, hits, ws[1..]) + if Accepted(cfg, start, hits, ws[0]) then {ws[0]} else {}
  {
    assert ws == [ws[0]] + ws[1..];
  }

  /** Over a list without repeats, the count is the size of the set of
      accepted walks in it. */
  lemma {:induction false} NumAcceptedIsCardinality(cfg: Config, start: Position, hits: int, ws: seq<seq<nat>>)
    requires Distinct(ws)
    ensures NumAccepted(cfg, start, hits, ws) == |AcceptedIn(cfg, start, hits, ws)|
  {
    if ws == [] {
      assert AcceptedIn(cfg, start, hits, ws) == {};
    } else {
      DistinctTail(ws);
      NumAcceptedIsCardinality(cfg, start, hits, ws[1..]);
      AcceptedInCons(cfg, start, hits, ws);
    }
  }

  // ---------------------------------------------------------------------
  // The running count of restricted cells

  lemma {:induction false} HitsCons(board: Board, restrictedCharacters: set<string>, q: Position, s: seq<Position>)
    ensures Hits(board, restrictedCharacters, [q] + s) == Hit(board, restrictedCharacters, q) + Hits(board, restrictedCharacters, s)
    decreases |s|
  {
    if s == [] {
      assert ([q] + s)[..0] == [];
    } else {
      var s' := s[..|s| - 1];
      assert ([q] + s)[..|s|] == [q] + s';
      HitsCons(board, restrictedCharacters, q, s');
    }
  }

  /** The running count never decreases along a walk. */
  lemma {:induction false} HitsPrefix(board: Board, restrictedCharacters: set<string>, s: seq<Position>, i: nat)
    requires i <= |s|
    ensures Hits(board, restrictedCharacters, s[..i]) <= Hits(board, restrictedCharacters, s)
    decreases |s|
  {
    if i < |s| {
      var s' := s[..|s| - 1];
      assert s'[..i] == s[..i];
      HitsPrefix(board, restrictedCharacters, s', i);
    } else {
      assert s[..i] == s;
    }
  }

  /** The running count grows by at most one per position, so it passes
      through every value up to its total. */
  lemma {:induction false} HitsReach(board: Board, restrictedCharacters: set<string>, s: seq<Position>, m: int)
    requires 1 <= m <= Hits(board, restrictedCharacters, s)
    ensures exists i :: 1 <= i <= |s| && Hits(board, restrictedCharacters, s[..i]) == m
    decreases |s|
  {
    var s' := s[..|s| - 1];
    if Hits(board, restrictedCharacters, s') >= m {
      HitsReach(board, restrictedCharacters, s', m);
      var i :| 1 <= i <= |s'| && Hits(board, restrictedCharacters, s'[..i]) == m;
      assert s'[..i] == s[..i];
    } else {
      assert s[..|s|] == s;
    }
  }

  // ---------------------------------------------------------------------
  // Accepting a walk, one step at a time

  lemma HitsSingle(board: Board, restrictedCharacters: set<string>, q: Position)
    ensures Hits(board, restrictedCharacters, [q]) == Hit(board, restrictedCharacters, q)
  {
    assert [q][..0] == [];
  }

  /** An accepted walk starts on a valid cell that does not, by itself,
      bring the count to the threshold. */
  lemma AcceptedHead(cfg: Config, start: Position, hits: int, w: seq<nat>)
    requires Accepted(cfg, start, hits, w)
    ensures IsValidPosition(cfg.board, start)
    ensures hits + Hit(cfg.board, cfg.restrictedCharacters, start) != cfg.maxRestrictedCharacters
  {
    var ps := Walk(cfg.moveDeltas, start, w);
    assert ps[..1] == [start];
    HitsSingle(cfg.board, cfg.restrictedCharacters, start);
  }

  /** The walk without moves is accepted exactly when the search returns 1
      at a leaf. */
  lemma AcceptedNil(cfg: Config, start: Position, hits: int)
    ensures Accepted(cfg, start, hits, []) <==>
      IsValidPosition(cfg.board, start) && hits + Hit(cfg.board, cfg.restrictedCharacters, start) != cfg.maxRestrictedCharacters
  {
    assert Walk(cfg.moveDeltas, start, [])[..1] == [start];
    HitsSingle(cfg.board, cfg.restrictedCharacters, start);
  }

  lemma InRangeCons(moveDeltas: seq<Delta>, j: nat, w: seq<nat>)
    ensures InRange(moveDeltas, [j] + w) <==> j < |moveDeltas| && InRange(moveDeltas, w)
  {
    var v := [j] + w;
    assert v[0] == j;
    assert forall t :: 1 <= t < |v| ==> v[t] == w[t - 1];
    assert forall t :: 0 <= t < |w| ==> w[t] == v[t + 1];
  }

  lemma WalkCons(moveDeltas: seq<Delta>, start: Position, j: nat, w: seq<nat>)
    requires j < |moveDeltas| && InRange(moveDeltas, w)
    ensures InRange(moveDeltas, [j] + w)
    ensures Walk(moveDeltas, start, [j] + w) == [start] + Walk(moveDeltas, NextPosition(start, moveDeltas[j]), w)
  {
    InRangeCons(moveDeltas, j, w);
    var v := [j] + w;
    assert v[0] == j && v[1..] == w;
  }

  lemma OnBoardCons(board: Board, q: Position, qs: seq<Position>)
    ensures OnBoard(board, [q] + qs) <==> IsValidPosition(board, q) && OnBoard(board, qs)
  {
    var ps := [q] + qs;
    assert ps[0] == q;
    assert forall t :: 1 <= t < |ps| ==> ps[t] == qs[t - 1];
    assert forall t :: 0 <= t < |qs| ==> qs[t] == ps[t + 1];
  }

  /** The first position settles the count; the rest of the walk carries it
      on. */
  lemma NeverReachesCons(board: Board, restrictedCharacters: set<string>, m: int, hits: int, q: Position, qs: seq<Position>)
    ensures NeverReaches(board, restrictedCharacters, m, hits, [q] + qs) <==>
      && hits + Hit(board, restrictedCharacters, q) != m
      && NeverReaches(board, restrictedCharacters, m, hits + Hit(board, restrictedCharacters, q), qs)
  {
    var ps := [q] + qs;
    var h' := hits + Hit(board, restrictedCharacters, q);
    forall i | 1 <= i <= |ps|
      ensures hits + Hits(board, restrictedCharacters, ps[..i]) == h' + Hits(board, restrictedCharacters, qs[..i - 1])
    {
      assert ps[..i] == [q] + qs[..i - 1];
      HitsCons(board, restrictedCharacters, q, qs[..i - 1]);
    }
    assert qs[..0] == [];
    if NeverReaches(board, restrictedCharacters, m, hits, ps) {
      assert hits + Hits(board, restrictedCharacters, ps[..1]) != m;
      forall i | 1 <= i <= |qs|
        ensures h' + Hits(board, restrictedCharacters, qs[..i]) != m
      {
        assert hits + Hits(board, restrictedCharacters, ps[..i + 1]) != m;
      }
    }
    if h' != m && NeverReaches(board, restrictedCharacters, m, h', qs) {
      forall i | 1 <= i <= |ps|
        ensures hits + Hits(board, restrictedCharacters, ps[..i]) != m
      {
        if i > 1 {
          assert h' + Hits(board, restrictedCharacters, qs[..i - 1]) != m;
        }
      }
    }
  }

  /** A walk that begins with delta `j` is accepted exactly when its start
      passes both checks and the rest of the walk is accepted from the next
      position with the updated count. */
  lemma AcceptedCons(cfg: Config, start: Position, hits: int, j: nat, w: seq<nat>)
    requires j < |cfg.moveDeltas|
    ensures Accepted(cfg, start, hits, [j] + w) <==>
      && IsValidPosition(cfg.board, start)
      && hits + Hit(cfg.board, cfg.restrictedCharacters, start) != cfg.maxRestrictedCharacters
      && Accepted(cfg, NextPosition(start, cfg.moveDeltas[j]), hits + Hit(cfg.board, cfg.restrictedCharacters, start), w)
  {
    InRangeCons(cfg.moveDeltas, j, w);
    if InRange(cfg.moveDeltas, w) {
      var qs := Walk(cfg.moveDeltas, NextPosition(start, cfg.moveDeltas[j]), w);
      WalkCons(cfg.moveDeltas, start, j, w);
      OnBoardCons(cfg.board, start, qs);
      NeverReachesCons(cfg.board, cfg.restrictedCharacters, cfg.maxRestrictedCharacters, hits, start, qs);
    }
  }

  /** No walk is accepted from a start that fails either check. */
  lemma {:induction false} NumAcceptedBlocked(cfg: Config, start: Position, hits: int, ws: seq<seq<nat>>)
    requires !IsValidPosition(cfg.board, start)
          || hits + Hit(cfg.board, cfg.restrictedCharacters, start) == cfg.maxRestrictedCharacters
    ensures NumAccepted(cfg, start, hits, ws) == 0
  {
    if ws != [] {
      if Accepted(cfg, start, hits, ws[0]) {
        AcceptedHead(cfg, start, hits, ws[0]);
      }
      NumAcceptedBlocked(cfg, start, hits, ws[1..]);
    }
  }

  /** Walks that begin with delta `j` are accepted as their tails are from
      the position that delta leads to. */
  lemma {:induction false} NumAcceptedLead(cfg: Config, start: Position, hits: int, j: nat, tails: seq<seq<nat>>)
    requires j < |cfg.moveDeltas|
    requires IsValidPosition(cfg.board, start)
    requires hits + Hit(cfg.board, cfg.restrictedCharacters, start) != cfg.maxRestrictedCharacters
    ensures NumAccepted(cfg, start, hits, Lead(j, tails))
         == NumAccepted(cfg, NextPosition(start, cfg.moveDeltas[j]), hits + Hit(cfg.board, cfg.restrictedCharacters, start), tails)
  {
    if tails != [] {
      var r := Lead(j, tails);
      assert r[0] == [j] + tails[0] && r[1..] == Lead(j, tails[1..]);
      AcceptedCons(cfg, start, hits, j, tails[0]);
      NumAcceptedLead(cfg, start, hits, j, tails[1..]);
    }
  }

  // ---------------------------------------------------------------------
  // The search counts exactly the accepted walks

  lemma {:induction false} CountIsNumAccepted(cfg: Config, position: Position, totalMoves: int, hits: int)
    requires IsValidPosition(cfg.board, position)
    requires totalMoves <= cfg.maxMoves
    ensures Count(cfg, position, totalMoves, hits)
         == NumAccepted(cfg, position, hits, Choices(|cfg.moveDeltas|, cfg.maxMoves - totalMoves))
    decreases cfg.maxMoves - totalMoves, |cfg.moveDeltas| + 1, 0
  {
    var k, n := |cfg.moveDeltas|, cfg.maxMoves - totalMoves;
    var h' := hits + Hit(cfg.board, cfg.restrictedCharacters, position);
    if h' == cfg.maxRestrictedCharacters {
      NumAcceptedBlocked(cfg, position, hits, Choices(k, n));
    } else if totalMoves == cfg.maxMoves {
      AcceptedNil(cfg, position, hits);
      assert Choices(k, n) == [[]];
    } else {
      BranchesIsNumAccepted(cfg, position, totalMoves, hits, k);
    }
  }

  lemma {:induction false} BranchesIsNumAccepted(cfg: Config, position: Position, totalMoves: int, hits: int, i: nat)
    requires IsValidPosition(cfg.board, position)
    requires totalMoves < cfg.maxMoves
    requires i <= |cfg.moveDeltas|
    requires hits + Hit(cfg.board, cfg.restrictedCharacters, position) != cfg.maxRestrictedCharacters
    ensures Branches(cfg, position, totalMoves, hits + Hit(cfg.board, cfg.restrictedCharacters, position), i)
         == NumAccepted(cfg, position, hits, Fan(i, Choices(|cfg.moveDeltas|, cfg.maxMoves - totalMoves - 1)))
    decreases cfg.maxMoves - totalMoves, i, 2
  {
    if i > 0 {
      var tails := Choices(|cfg.moveDeltas|, cfg.maxMoves - totalMoves - 1);
      var h' := hits + Hit(cfg.board, cfg.restrictedCharacters, position);
      var next := NextPosition(position, cfg.moveDeltas[i - 1]);
      BranchesIsNumAccepted(cfg, position, totalMoves, hits, i - 1);
      MoveIsNumAccepted(cfg, position, totalMoves, hits, i - 1);
      NumAcceptedFan(cfg, position, hits, i, tails);
    }
  }

  lemma NumAcceptedFan(cfg: Config, start: Position, hits: int, i: nat, tails: seq<seq<nat>>)
    requires 0 < i
    ensures NumAccepted(cfg, start, hits, Fan(i, tails))
         == NumAccepted(cfg, start, hits, Fan(i - 1, tails)) + NumAccepted(cfg, start, hits, Lead(i - 1, tails))
  {
    assert Fan(i, tails) == Fan(i - 1, tails) + Lead(i - 1, tails);
    NumAcceptedConcat(cfg, start, hits, Fan(i - 1, tails), Lead(i - 1, tails));
  }

  /** The move by delta `j` contributes the walks that begin with `j`. */
  lemma {:induction false} MoveIsNumAccepted(cfg: Config, position: Position, totalMoves: int, hits: int, j: nat)
    requires IsValidPosition(cfg.board, position)
    requires totalMoves < cfg.maxMoves
    requires j < |cfg.moveDeltas|
    requires hits + Hit(cfg.board, cfg.restrictedCharacters, position) != cfg.maxRestrictedCharacters
    ensures (if IsValidPosition(cfg.board, NextPosition(position, cfg.moveDeltas[j]))
             then Count(cfg, NextPosition(position, cfg.moveDeltas[j]), totalMoves + 1,
                        hits + Hit(cfg.board, cfg.restrictedCharacters, position))
             else 0)
         == NumAccepted(cfg, position, hits, Lead(j, Choices(|cfg.moveDeltas|, cfg.maxMoves - totalMoves - 1)))
    decreases cfg.maxMoves - totalMoves, 0, 1
  {
    if IsValidPosition(cfg.board, NextPosition(position, cfg.moveDeltas[j])) {
      ValidMoveIsNumAccepted(cfg, position, totalMoves, hits, j);
    } else {
      BlockedMoveIsNumAccepted(cfg, position, totalMoves, hits, j);
    }
  }

  lemma {:induction false} ValidMoveIsNumAccepted(cfg: Config, position: Position, totalMoves: int, hits: int, j: nat)
    requires IsValidPosition(cfg.board, position)
    requires totalMoves < cfg.maxMoves
    requires j < |cfg.moveDeltas|
    requires hits + Hit(cfg.board, cfg.restrictedCharacters, position) != cfg.maxRestrictedCharacters
    requires IsValidPosition(cfg.board, NextPosition(position, cfg.moveDeltas[j]))
    ensures Count(cfg, NextPosition(position, cfg.moveDeltas[j]), totalMoves + 1, hits + Hit(cfg.board, cfg.restrictedCharacters, position))
         == NumAccepted(cfg, position, hits, Lead(j, Choices(|cfg.moveDeltas|, cfg.maxMoves - totalMoves - 1)))
    decreases cfg.maxMoves - totalMoves, 0, 0
  {
    var tails := Choices(|cfg.moveDeltas|, cfg.maxMoves - totalMoves - 1);
    var h' := hits + Hit(cfg.board, cfg.restrictedCharacters, position);
    var next := NextPosition(position, cfg.moveDeltas[j]);
    NumAcceptedLead(cfg, position, hits, j, tails);
    CountIsNumAccepted(cfg, next, totalMoves + 1, h');
    assert cfg.maxMoves - (totalMoves + 1) == cfg.maxMoves - totalMoves - 1;
  }

  lemma BlockedMoveIsNumAccepted(cfg: Config, position: Position, totalMoves: int, hits: int, j: nat)
    requires IsValidPosition(cfg.board, position)
    requires totalMoves < cfg.maxMoves
    requires j < |cfg.moveDeltas|
    requires hits + Hit(cfg.board, cfg.restrictedCharacters, position) != cfg.maxRestrictedCharacters
    requires !IsValidPosition(cfg.board, NextPosition(position, cfg.moveDeltas[j]))
    ensures NumAccepted(cfg, position, hits, Lead(j, Choices(|cfg.moveDeltas|, cfg.maxMoves - totalMoves - 1))) == 0
  {
    var tails := Choices(|cfg.moveDeltas|, cfg.maxMoves - totalMoves - 1);
    var h' := hits + Hit(cfg.board, cfg.restrictedCharacters, position);
    NumAcceptedLead(cfg, position, hits, j, tails);
    NumAcceptedBlocked(cfg, NextPosition(position, cfg.moveDeltas[j]), h', tails);
  }

  /** The number of paths from a start cell is the number of index sequences
      of length `maxMoves` whose walk the search accepts. */
  lemma CountCharacterised(cfg: Config, position: Position)
    requires IsValidPosition(cfg.board, position)
    requires 0 <= cfg.maxMoves
    ensures Count(cfg, position, 0, 0) == |AcceptedIn(cfg, position, 0, Choices(|cfg.moveDeltas|, cfg.maxMoves))|
  {
    CountIsNumAccepted(cfg, position, 0, 0);
    ChoicesDistinct(|cfg.moveDeltas|, cfg.maxMoves);
    NumAcceptedIsCardinality(cfg, position, 0, Choices(|cfg.moveDeltas|, cfg.maxMoves));
  }

  /** At most one path per index sequence: |moveDeltas|^maxMoves. */
  lemma CountBound(cfg: Config, position: Position, totalMoves: int, hits: int)
    requires IsValidPosition(cfg.board, position)
    requires totalMoves <= cfg.maxMoves
    ensures Count(cfg, position, totalMoves, hits) <= Pow(|cfg.moveDeltas|, cfg.maxMoves - totalMoves)
  {
    CountIsNumAccepted(cfg, position, totalMoves, hits);
    ChoicesSize(|cfg.moveDeltas|, cfg.maxMoves - totalMoves);
  }

  // ---------------------------------------------------------------------
  // The two threshold regimes

  /** With a threshold of 1 or more, a walk from a fresh start is accepted
      exactly when it stays on valid cells and has fewer restricted cells
      than the threshold. */
  lemma AcceptedBelowThreshold(cfg: Config, start: Position, w: seq<nat>)
    requires 1 <= cfg.maxRestrictedCharacters
    ensures Accepted(cfg, start, 0, w) <==>
      && InRange(cfg.moveDeltas, w)
      && OnBoard(cfg.board, Walk(cfg.moveDeltas, start, w))
      && Hits(cfg.board, cfg.restrictedCharacters, Walk(cfg.moveDeltas, start, w)) < cfg.maxRestrictedCharacters
  {
    var b, rc, m := cfg.board, cfg.restrictedCharacters, cfg.maxRestrictedCharacters;
    if InRange(cfg.moveDeltas, w) {
      var ps := Walk(cfg.moveDeltas, start, w);
      if Hits(b, rc, ps) < m {
        forall i | 1 <= i <= |ps|
          ensures Hits(b, rc, ps[..i]) < m
        {
          HitsPrefix(b, rc, ps, i);
        }
      } else {
        HitsReach(b, rc, ps, m);
      }
    }
  }

  /** With a threshold of 0, a walk from a fresh start is accepted exactly
      when it stays on valid cells and starts on a restricted one: a
      non-restricted start hits 0 at once, and a count of 1 or more never
      comes back to 0. */
  lemma AcceptedZeroThreshold(cfg: Config, start: Position, w: seq<nat>)
    requires cfg.maxRestrictedCharacters == 0
    ensures Accepted(cfg, start, 0, w) <==>
      && InRange(cfg.moveDeltas, w)
      && OnBoard(cfg.board, Walk(cfg.moveDeltas, start, w))
      && Hit(cfg.board, cfg.restrictedCharacters, start) == 1
  {
    var b, rc := cfg.board, cfg.restrictedCharacters;
    if InRange(cfg.moveDeltas, w) {
      var ps := Walk(cfg.moveDeltas, start, w);
      assert ps[..1] == [start];
      HitsSingle(b, rc, start);
      if Hit(b, rc, start) == 1 {
        forall i | 1 <= i <= |ps|
          ensures Hits(b, rc, ps[..i]) >= 1
        {
          assert ps[..i][..1] == ps[..1];
          HitsPrefix(b, rc, ps[..i], 1);
        }
      }
    }
  }

  /** The index sequences of `maxMoves` moves whose walk from `start` stays
      on valid cells. */
  ghost function BoardWalks(cfg: Config, start: Position): set<seq<nat>>
    requires 0 <= cfg.maxMoves
  {
    set w | w in Choices(|cfg.moveDeltas|, cfg.maxMoves) && InRange(cfg.moveDeltas, w)
                                                         && OnBoard(cfg.board, Walk(cfg.moveDeltas, start, w))
  }

  /** Those of `BoardWalks` that meet fewer than `limit` restricted cells. */
  ghost function WalksBelow(cfg: Config, start: Position, limit: int): set<seq<nat>>
    requires 0 <= cfg.maxMoves
  {
    set w | w in BoardWalks(cfg, start)
         && Hits(cfg.board, cfg.restrictedCharacters, Walk(cfg.moveDeltas, start, w)) < limit
  }

  /** For a threshold of 1 or more: the paths from a start cell are the
      walks of `maxMoves` moves on valid cells with fewer restricted cells
      (start and repeats included) than the threshold. */
  lemma CountBelowThreshold(cfg: Config, position: Position)
    requires IsValidPosition(cfg.board, position)
    requires 0 <= cfg.maxMoves
    requires 1 <= cfg.maxRestrictedCharacters
    ensures Count(cfg, position, 0, 0) == |WalksBelow(cfg, position, cfg.maxRestrictedCharacters)|
  {
    CountCharacterised(cfg, position);
    var ws := Choices(|cfg.moveDeltas|, cfg.maxMoves);
    var accepted := AcceptedIn(cfg, position, 0, ws);
    var fewer := WalksBelow(cfg, position, cfg.maxRestrictedCharacters);
    forall w
      ensures w in accepted <==> w in fewer
    {
      AcceptedBelowThreshold(cfg, position, w);
    }
    assert accepted == fewer;
  }

  /** For a threshold of 0: a restricted start cell counts every walk of
      `maxMoves` moves on valid cells, any other start cell none. */
  lemma CountZeroThreshold(cfg: Config, position: Position)
    requires IsValidPosition(cfg.board, position)
    requires 0 <= cfg.maxMoves
    requires cfg.maxRestrictedCharacters == 0
    ensures Count(cfg, position, 0, 0) ==
      if IsRestrictedCharacter(cfg.board, cfg.restrictedCharacters, position) then |BoardWalks(cfg, position)| else 0
  {
    CountCharacterised(cfg, position);
    var ws := Choices(|cfg.moveDeltas|, cfg.maxMoves);
    var accepted := AcceptedIn(cfg, position, 0, ws);
    var onBoard := BoardWalks(cfg, position);
    var restricted := Hit(cfg.board, cfg.restrictedCharacters, position) == 1;
    forall w
      ensures w in accepted <==> w in onBoard && restricted
    {
      AcceptedZeroThreshold(cfg, position, w);
    }
    if restricted {
      assert accepted == onBoard;
    } else {
      assert accepted == {};
    }
  }

  // ---------------------------------------------------------------------
  // Monotonicity in the threshold, from 1 upwards

  lemma CountMonotone(cfg: Config, position: Position, m: int)
    requires IsValidPosition(cfg.board, position)
    requires 0 <= cfg.maxMoves
    requires 1 <= cfg.maxRestrictedCharacters <= m
    ensures Count(cfg, position, 0, 0) <= Count(cfg.(maxRestrictedCharacters := m), position, 0, 0)
  {
    var cfg' := cfg.(maxRestrictedCharacters := m);
    CountBelowThreshold(cfg, position);
    CountBelowThreshold(cfg', position);
    var small := WalksBelow(cfg, position, cfg.maxRestrictedCharacters);
    var large := WalksBelow(cfg, position, m);
    assert WalksBelow(cfg', position, m) == large by {
      assert BoardWalks(cfg', position) == BoardWalks(cfg, position);
    }
    assert small <= large;
    SubsetCardinality(small, large);
  }

  lemma SubsetCardinality<T>(a: set<T>, b: set<T>)
    requires a <= b
    ensures |a| <= |b|
  {
    assert b == a + (b - a);
  }

  lemma {:induction false} RowSumMonotone(cfg: Config, m: int, x: nat, y: nat)
    requires x < |cfg.board| && y <= |cfg.board[x]|
    requires 0 <= cfg.maxMoves
    requires 1 <= cfg.maxRestrictedCharacters <= m
    ensures RowSum(cfg, x, y) <= RowSum(cfg.(maxRestrictedCharacters := m), x, y)
  {
    if y > 0 {
      RowSumMonotone(cfg, m, x, y - 1);
      if IsValidPosition(cfg.board, (x, y - 1)) {
        CountMonotone(cfg, (x, y - 1), m);
      }
    }
  }

  lemma {:induction false} BoardSumMonotone(cfg: Config, m: int, x: nat)
    requires x <= |cfg.board|
    requires 0 <= cfg.maxMoves
    requires 1 <= cfg.maxRestrictedCharacters <= m
    ensures BoardSum(cfg, x) <= BoardSum(cfg.(maxRestrictedCharacters := m), x)
  {
    if x > 0 {
      BoardSumMonotone(cfg, m, x - 1);
      RowSumMonotone(cfg, m, x - 1, |cfg.board[x - 1]|);
    }
  }

  /** Raising a threshold of 1 or more never lowers the total. */
  lemma PathsMonotone(cfg: Config, m: int)
    requires 0 <= cfg.maxMoves
    requires 1 <= cfg.maxRestrictedCharacters <= m
    ensures Paths(cfg) <= Paths(cfg.(maxRestrictedCharacters := m))
  {
    BoardSumMonotone(cfg, m, |cfg.board|);
  }
}

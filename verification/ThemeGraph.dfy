/** The parent relation of themes.csv: the ancestor walks, and what accepting a file means. */
module ThemeGraph {
  import opened Wrappers

  /** One theme of the file; `parent` is EMPTY at a root. */
  datatype Row = Row(name: Text, parent: Text)
  type Rows = map<Text, Row>

  ghost predicate ParentsPresent(rows: Rows) {
    EMPTY !in rows && forall e | e in rows :: rows[e].parent == EMPTY || rows[e].parent in rows
  }

  /** A number for every theme that falls along every parent link. */
  ghost predicate Ranked(rows: Rows, rank: map<Text, nat>) {
    rank.Keys == rows.Keys && forall e | e in rows && rows[e].parent in rows :: rank[rows[e].parent] < rank[e]
  }

  /** A non-empty round of themes, each the parent of the one before and the first the parent of the last. */
  ghost predicate Cycle(rows: Rows, round: seq<Text>) {
    && round != []
    && (forall k | 0 <= k < |round| :: round[k] in rows)
    && (forall k | 0 <= k < |round| :: rows[round[k]].parent == round[if k + 1 < |round| then k + 1 else 0])
  }

  /** Following parents from `e` leaves the file after exactly `n` steps. */
  ghost predicate Ends(rows: Rows, e: Text, n: nat)
    decreases n
  {
    if n == 0 then e == EMPTY else e in rows && Ends(rows, rows[e].parent, n - 1)
  }

  lemma {:induction false} EndsOnce(rows: Rows, e: Text, m: nat, n: nat)
    requires EMPTY !in rows && Ends(rows, e, m) && Ends(rows, e, n)
    ensures m == n
    decreases n
  {
    if m > 0 && n > 0 {
      EndsOnce(rows, rows[e].parent, m - 1, n - 1);
    }
  }

  /** Themes visited by one ancestor walk, in order. */
  ghost predicate Trail(rows: Rows, trail: seq<Text>) {
    && (forall k | 0 <= k < |trail| :: trail[k] in rows)
    && (forall k | 0 <= k < |trail| - 1 :: rows[trail[k]].parent == trail[k + 1])
  }

  lemma {:induction false} TrailEnds(rows: Rows, trail: seq<Text>)
    requires trail != [] && Trail(rows, trail) && rows[trail[|trail| - 1]].parent == EMPTY
    ensures Ends(rows, trail[0], |trail|)
  {
    if |trail| > 1 {
      TrailEnds(rows, trail[1..]);
    }
  }

  /** A trail that meets itself again never ends. */
  lemma ReturnNeverEnds(rows: Rows, trail: seq<Text>, k: nat, n: nat)
    requires EMPTY !in rows && Trail(rows, trail) && k < |trail| && rows[trail[|trail| - 1]].parent == trail[k]
    ensures !Ends(rows, trail[0], n)
  {
    if Ends(rows, trail[0], n) {
      EndsLater(rows, trail, n, k);
      EndsLater(rows, trail, n, |trail| - 1);
      EndsOnce(rows, trail[k], n - k, n - |trail|);
    }
  }

  lemma {:induction false} EndsLater(rows: Rows, trail: seq<Text>, n: nat, k: nat)
    requires EMPTY !in rows && Trail(rows, trail) && k < |trail| && Ends(rows, trail[0], n)
    ensures n > k && Ends(rows, trail[k], n - k)
  {
    if k > 0 {
      EndsLater(rows, trail, n, k - 1);
      assert rows[trail[k - 1]].parent == trail[k - 1 + 1];
    }
  }

  /** One ancestor walk: it comes back to a theme it has seen exactly when the start does not lead out of the file. */
  method Walk(rows: Rows, start: Text) returns (returned: bool)
    requires ParentsPresent(rows) && start in rows
    ensures !returned ==> exists n :: Ends(rows, start, n)
    ensures returned ==> forall n: nat :: !Ends(rows, start, n)
    ensures returned ==> exists round :: Cycle(rows, round)
  {
    var ancestors: set<Text>, current := {}, start;
    ghost var trail: seq<Text> := [];
    while current != EMPTY
      invariant current == EMPTY || current in rows
      invariant Trail(rows, trail) && ancestors <= rows.Keys
      invariant forall k | 0 <= k < |trail| :: trail[k] in ancestors
      invariant forall a | a in ancestors :: a in trail
      invariant if trail == [] then current == start
                else trail[0] == start && rows[trail[|trail| - 1]].parent == current
      decreases rows.Keys - ancestors
    {
      if current in ancestors {
        ghost var k :| 0 <= k < |trail| && trail[k] == current;
        assert Cycle(rows, trail[k..]);
        forall n: nat ensures !Ends(rows, start, n) {
          ReturnNeverEnds(rows, trail, k, n);
        }
        return true;
      }
      ancestors, trail, current := ancestors + {current}, trail + [current], rows[current].parent;
    }
    TrailEnds(rows, trail);
    assert Ends(rows, start, |trail|);
    returned := false;
  }

  /** The loop over all themes of the file. */
  method HasCycle(rows: Rows) returns (cyclic: bool)
    requires ParentsPresent(rows)
    ensures cyclic <==> exists round :: Cycle(rows, round)
    ensures !cyclic <==> exists rank :: Ranked(rows, rank)
  {
    var pending := rows.Keys;
    while pending != {}
      invariant pending <= rows.Keys
      invariant forall e | e in rows && e !in pending :: exists n :: Ends(rows, e, n)
      decreases pending
    {
      var e :| e in pending;
      var returned := Walk(rows, e);
      if returned {
        NoRankOnCycle(rows);
        return true;
      }
      pending := pending - {e};
    }
    RankExists(rows);
    NoRankOnCycle(rows);
    cyclic := false;
  }

  lemma RankExists(rows: Rows)
    requires EMPTY !in rows && forall e | e in rows :: exists n :: Ends(rows, e, n)
    ensures exists rank :: Ranked(rows, rank)
  {
    var rank: map<Text, nat> := map e | e in rows :: var n: nat :| Ends(rows, e, n); n;
    forall e | e in rows && rows[e].parent in rows ensures rank[rows[e].parent] < rank[e] {
      assert Ends(rows, e, rank[e]) && Ends(rows, rows[e].parent, rank[rows[e].parent]);
      EndsOnce(rows, rows[e].parent, rank[rows[e].parent], rank[e] - 1);
    }
    assert Ranked(rows, rank);
  }

  lemma {:induction false} RankFallsAlong(rows: Rows, rank: map<Text, nat>, round: seq<Text>, k: nat)
    requires Ranked(rows, rank) && Cycle(rows, round) && k < |round|
    ensures rank[round[k]] <= rank[round[0]]
    ensures rank[round[if k + 1 < |round| then k + 1 else 0]] < rank[round[k]]
  {
    assert rows[round[k]].parent == round[if k + 1 < |round| then k + 1 else 0];
    if k > 0 {
      RankFallsAlong(rows, rank, round, k - 1);
    }
  }

  /** A rank and a cycle exclude each other. */
  lemma NoRankOnCycle(rows: Rows)
    ensures !((exists rank :: Ranked(rows, rank)) && (exists round :: Cycle(rows, round)))
  {
    if (exists rank :: Ranked(rows, rank)) && (exists round :: Cycle(rows, round)) {
      var rank :| Ranked(rows, rank);
      var round :| Cycle(rows, round);
      RankFallsAlong(rows, rank, round, |round| - 1);
      assert false;
    }
  }
}

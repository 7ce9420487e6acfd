/** The notice fixpoint: which packages of a bill of materials belong to the files that are shipped. */
module NoticeGraph {
  import opened Wrappers
  import opened Reachability

  datatype Relationship = Relationship(element: Text, kind: Text, related: Text)

  const CONTAINS := Text("CONTAINS")
  const DEPENDS_ON := Text("DEPENDS_ON")

  /** The element that contains a shipped file. */
  predicate Starts(relations: set<Relationship>, files: set<Text>, x: Text) {
    exists r :: r in relations && r.kind == Text("CONTAINS") && r.related in files && r.element == x
  }

  /** An element depends on or contains another. */
  predicate Leads(relations: set<Relationship>, x: Text, y: Text) {
    exists r :: r in relations && r.element == x && r.related == y
      && (r.kind == Text("DEPENDS_ON") || r.kind == Text("CONTAINS"))
  }

  ghost predicate Belongs(relations: set<Relationship>, files: set<Text>, x: Text) {
    Reached(y => Starts(relations, files, y), (y, z) => Leads(relations, y, z), x)
  }

  function Related(relations: set<Relationship>): set<Text> {
    set r | r in relations :: r.related
  }

  function Containers(relations: set<Relationship>, files: set<Text>): set<Text> {
    set r | r in relations && r.kind == CONTAINS && r.related in files :: r.element
  }

  /** One round: what the elements found so far depend on or contain. */
  function More(relations: set<Relationship>, ids: set<Text>): set<Text> {
    set r | r in relations && r.element in ids && (r.kind == DEPENDS_ON || r.kind == CONTAINS) :: r.related
  }

  /** Everything found so far belongs, and the containers of the shipped files are found. */
  ghost predicate Sound(relations: set<Relationship>, files: set<Text>, ids: set<Text>) {
    && (forall x :: Starts(relations, files, x) ==> x in ids)
    && forall x | x in ids :: Belongs(relations, files, x)
  }

  lemma ContainersSound(relations: set<Relationship>, files: set<Text>)
    ensures Sound(relations, files, Containers(relations, files))
  {
    forall x | x in Containers(relations, files) ensures Belongs(relations, files, x) {
      StartReached(y => Starts(relations, files, y), (y, z) => Leads(relations, y, z), x);
    }
  }

  lemma MoreSound(relations: set<Relationship>, files: set<Text>, ids: set<Text>)
    requires Sound(relations, files, ids)
    ensures Sound(relations, files, ids + More(relations, ids))
  {
    forall y | y in More(relations, ids) ensures Belongs(relations, files, y) {
      var r :| r in relations && r.element in ids && (r.kind == DEPENDS_ON || r.kind == CONTAINS) && r.related == y;
      assert Leads(relations, r.element, y);
      OneFurther(x => Starts(relations, files, x), (x, z) => Leads(relations, x, z), r.element, y);
    }
  }

  lemma NothingMore(relations: set<Relationship>, files: set<Text>, ids: set<Text>)
    requires Sound(relations, files, ids) && More(relations, ids) <= ids
    ensures forall x :: x in ids <==> Belongs(relations, files, x)
  {
    forall x, y | x in ids && Leads(relations, x, y) ensures y in ids {
      assert y in More(relations, ids);
    }
    LeastClosed(x => Starts(relations, files, x), (x, y) => Leads(relations, x, y), ids);
  }

  /** A round that finds something leaves less to be found. */
  lemma Shrinks(relations: set<Relationship>, ids: set<Text>)
    requires !(More(relations, ids) <= ids)
    ensures Related(relations) - (ids + More(relations, ids)) < Related(relations) - ids
  {
    var gained :| gained in More(relations, ids) && gained !in ids;
    assert gained in Related(relations) - ids;
  }

  /** The `while True` loop: exactly the elements reached from the containers of the shipped files. */
  method Collect(relations: set<Relationship>, files: set<Text>) returns (ids: set<Text>)
    ensures forall x :: x in ids <==> Belongs(relations, files, x)
  {
    ids := Containers(relations, files);
    ContainersSound(relations, files);
    while true
      invariant Sound(relations, files, ids)
      decreases Related(relations) - ids
    {
      var more := More(relations, ids);
      if more <= ids {
        NothingMore(relations, files, ids);
        return;
      }
      MoreSound(relations, files, ids);
      Shrinks(relations, ids);
      ids := ids + more;
    }
  }

  /** `from` says where each of the shipped packages stands in the bill of materials. */
  ghost predicate Selection(packages: seq<Text>, ids: set<Text>, shipped: seq<Text>, from: seq<nat>) {
    && |from| == |shipped|
    && (forall k | 0 <= k < |from| :: from[k] < |packages| && packages[from[k]] == shipped[k])
    && (forall j, k | 0 <= j < k < |from| :: from[j] < from[k])
    && forall i: nat | i < |packages| :: i in from <==> packages[i] in ids
  }

  lemma SelectionGrows(packages: seq<Text>, n: nat, ids: set<Text>, shipped: seq<Text>, from: seq<nat>)
    requires n < |packages| && Selection(packages[..n], ids, shipped, from)
    ensures packages[n] in ids ==> Selection(packages[..n + 1], ids, shipped + [packages[n]], from + [n])
    ensures packages[n] !in ids ==> Selection(packages[..n + 1], ids, shipped, from)
  {
    forall i: nat | i < n ensures packages[..n + 1][i] == packages[..n][i] {
    }
    forall k | 0 <= k < |from| ensures from[k] < n {
    }
  }

  /**
   `packages` of the program: those of the bill of materials that belong, each as often as it is listed and in
   the order of the list.
   */
  method Packages(relations: set<Relationship>, files: set<Text>, packages: seq<Text>)
    returns (shipped: seq<Text>, ids: set<Text>, ghost from: seq<nat>)
    ensures forall x :: x in ids <==> Belongs(relations, files, x)
    ensures |from| == |shipped| && forall j, k | 0 <= j < k < |from| :: from[j] < from[k]
    ensures forall k | 0 <= k < |from| :: from[k] < |packages| && shipped[k] == packages[from[k]]
    ensures forall i: nat | i < |packages| :: i in from <==> Belongs(relations, files, packages[i])
  {
    ids := Collect(relations, files);
    shipped, from := [], [];
    for i := 0 to |packages|
      invariant Selection(packages[..i], ids, shipped, from)
    {
      SelectionGrows(packages, i, ids, shipped, from);
      if packages[i] in ids {
        shipped, from := shipped + [packages[i]], from + [i];
      }
    }
    assert packages[..|packages|] == packages;
  }
}

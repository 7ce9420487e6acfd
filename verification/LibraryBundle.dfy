/**
 The library worklist of the Linux packaging: starting from the executables and plugins, every private
 library a binary of the bundle needs is copied into it, until nothing is left to scan.
 */
module LibraryBundle {
  import opened Wrappers
  import opened Counting
  import opened Reachability

  /**
   `candidates` leads from a library name to the file it resolves to; `needs` lists the names a library file
   asks for, `roots` those the executables and plugins ask for.
   */
  datatype Input = Input(
    roots: map<Text, set<Text>>, candidates: map<Text, Text>, needs: map<Text, set<Text>>,
    private: set<Text>, system: set<Text>, tls: set<Text>)

  /** The `lib` directory: copied files, and links from names to them. */
  datatype Bundle = Bundle(files: set<Text>, links: map<Text, Text>)

  datatype Binary = Root(path: Text) | Library(file: Text)

  datatype Problem = MissingPrivate(name: Text) | UndeclaredSystem(name: Text)

  predicate Present(b: Bundle, name: Text) {
    name in b.files || name in b.links
  }

  function Needs(g: Input, x: Binary): set<Text> {
    match x
    case Root(path) => if path in g.roots then g.roots[path] else {}
    case Library(file) => if file in g.needs then g.needs[file] else {}
  }

  /** The binaries elf_files finds. */
  function Binaries(g: Input, b: Bundle): set<Binary> {
    (set path | path in g.roots :: Root(path)) + set file | file in b.files :: Library(file)
  }

  // ----- What has to be in the bundle

  predicate IsStart(g: Input, name: Text) {
    name in g.tls || exists path :: path in g.roots && name in g.roots[path] && name in g.private
  }

  predicate IsEdge(g: Input, name: Text, next: Text) {
    name in g.candidates && next in Needs(g, Library(g.candidates[name])) && next in g.private
  }

  ghost predicate Required(g: Input, name: Text) {
    Reached(n => IsStart(g, n), (n, m) => IsEdge(g, n, m), name)
  }

  lemma StartRequired(g: Input, name: Text)
    requires IsStart(g, name)
    ensures Required(g, name)
  {
    StartReached(n => IsStart(g, n), (n, m) => IsEdge(g, n, m), name);
  }

  /** A binary is part of what has to be shipped. */
  ghost predicate Shipped(g: Input, x: Binary) {
    match x
    case Root(path) => path in g.roots
    case Library(file) => exists name :: Required(g, name) && name in g.candidates && g.candidates[name] == file
  }

  lemma NeededIsRequired(g: Input, x: Binary, name: Text)
    requires Shipped(g, x) && name in Needs(g, x) && name in g.private
    ensures Required(g, name)
  {
    match x {
      case Root(path) =>
        assert IsStart(g, name);
        StartRequired(g, name);
      case Library(file) =>
        var n :| Required(g, n) && n in g.candidates && g.candidates[n] == file;
        OneFurther(k => IsStart(g, k), (k, m) => IsEdge(g, k, m), n, name);
    }
  }

  // ----- copy_library

  /** Everything in the bundle has a reason to be there, and every link leads to something. */
  ghost predicate Sound(g: Input, b: Bundle) {
    && (forall file | file in b.files :: Shipped(g, Library(file)))
    && (forall file | file in b.files :: file in g.candidates.Values)
    && forall name | name in b.links ::
         && Required(g, name) && name in g.candidates
         && b.links[name] == g.candidates[name] != name && Present(b, b.links[name])
  }

  ghost predicate Extends(b: Bundle, c: Bundle) {
    b.files <= c.files && b.links.Keys <= c.links.Keys
  }

  method CopyLibrary(g: Input, b: Bundle, name: Text) returns (problem: Option<Problem>, c: Bundle)
    requires Sound(g, b) && Required(g, name)
    ensures Sound(g, c) && Extends(b, c)
    ensures problem.None? ==> Present(c, name)
    ensures problem.Some? ==> problem.value == MissingPrivate(name) && name !in g.candidates
  {
    c := b;
    if Present(b, name) {
      return None, c;
    }
    if name !in g.candidates {
      return Some(MissingPrivate(name)), c;
    }
    var actual := g.candidates[name];
    assert actual in g.candidates.Values;
    if !Present(c, actual) {
      c := c.(files := c.files + {actual});
    }
    if name != actual {
      c := c.(links := c.links[name := actual]);
    }
    problem := None;
  }

  // ----- The worklist

  /** The binary finds everything it needs: in the bundle, or declared as part of the system. */
  ghost predicate Served(g: Input, b: Bundle, x: Binary) {
    forall name | name in Needs(g, x) :: if name in g.private then Present(b, name) else name in g.system
  }

  /** The name is a true obstacle: something that has to be shipped needs it, and nothing provides it. */
  ghost predicate Obstacle(g: Input, p: Problem) {
    match p
    case MissingPrivate(name) => Required(g, name) && name !in g.candidates
    case UndeclaredSystem(name) =>
      name !in g.private && name !in g.system && exists x :: Shipped(g, x) && name in Needs(g, x)
  }

  lemma StillServed(g: Input, b: Bundle, c: Bundle, scanned: set<Binary>)
    requires Extends(b, c) && forall x | x in scanned :: Served(g, b, x)
    ensures forall x | x in scanned :: Served(g, c, x)
  {
    forall x | x in scanned ensures Served(g, c, x) {
      assert Served(g, b, x);
    }
  }

  /** Scanning one binary. */
  method Scan(g: Input, b: Bundle, x: Binary) returns (problem: Option<Problem>, c: Bundle)
    requires Sound(g, b) && Shipped(g, x)
    ensures Sound(g, c) && Extends(b, c)
    ensures problem.None? ==> Served(g, c, x)
    ensures problem.Some? ==> Obstacle(g, problem.value)
  {
    c, problem := b, None;
    var all := Needs(g, x);
    var pending := all;
    while pending != {}
      invariant pending <= all && Sound(g, c) && Extends(b, c) && problem.None?
      invariant forall name | name in all - pending :: if name in g.private then Present(c, name) else name in g.system
      decreases pending
    {
      var name :| name in pending;
      TakeOne(all, pending, name);
      if name in g.private {
        NeededIsRequired(g, x, name);
        problem, c := CopyLibrary(g, c, name);
        if problem.Some? {
          return;
        }
      } else if name !in g.system {
        return Some(UndeclaredSystem(name)), c;
      }
      pending := pending - {name};
    }
    NothingTaken(all);
  }

  /** The `for binary in pending` loop. */
  method ScanAll(g: Input, b: Bundle, pending: set<Binary>, scanned: set<Binary>)
    returns (problem: Option<Problem>, c: Bundle, done: set<Binary>)
    requires Sound(g, b) && (forall x | x in pending :: Shipped(g, x)) && forall x | x in scanned :: Served(g, b, x)
    ensures Sound(g, c) && Extends(b, c)
    ensures problem.None? ==> done == scanned + pending && forall x | x in done :: Served(g, c, x)
    ensures problem.Some? ==> Obstacle(g, problem.value)
  {
    c, done, problem := b, scanned, None;
    var left := pending;
    while left != {}
      invariant left <= pending && Sound(g, c) && Extends(b, c) && problem.None?
      invariant done + left == scanned + pending && forall x | x in done :: Served(g, c, x)
      decreases left
    {
      var x :| x in left;
      ghost var before := c;
      problem, c := Scan(g, c, x);
      if problem.Some? {
        return;
      }
      StillServed(g, before, c, done);
      done, left := done + {x}, left - {x};
    }
  }

  /** All binaries there can ever be. */
  function Universe(g: Input): set<Binary> {
    (set path | path in g.roots :: Root(path)) + set file | file in g.candidates.Values :: Library(file)
  }

  lemma InUniverse(g: Input, b: Bundle)
    requires Sound(g, b)
    ensures Binaries(g, b) <= Universe(g) && forall x | x in Binaries(g, b) :: Shipped(g, x)
  {
  }

  /** The two TLS libraries are copied first. */
  method CopyTls(g: Input) returns (problem: Option<Problem>, b: Bundle)
    ensures Sound(g, b)
    ensures problem.None? ==> forall name | name in g.tls :: Present(b, name)
    ensures problem.Some? ==> Obstacle(g, problem.value)
  {
    problem, b := None, Bundle({}, map[]);
    var left := g.tls;
    while left != {}
      invariant left <= g.tls && Sound(g, b) && problem.None?
      invariant forall name | name in g.tls - left :: Present(b, name)
      decreases left
    {
      var name :| name in left;
      StartRequired(g, name);
      problem, b := CopyLibrary(g, b, name);
      if problem.Some? {
        return;
      }
      TakeOne(g.tls, left, name);
      left := left - {name};
    }
    NothingTaken(g.tls);
  }

  // ----- Nothing is forgotten

  /**
   A name that has to be shipped and is also the file of another such name resolves to itself. Only what the
   roots lead to matters, so the condition can be checked on the candidates before anything is copied.
   */
  ghost predicate SettledRequired(g: Input) {
    forall name | Required(g, name) && name in g.candidates ::
      var file := g.candidates[name];
      Required(g, file) && file in g.candidates ==> g.candidates[file] == file
  }

  /** The bundle of a successful run. */
  ghost predicate Complete(g: Input, b: Bundle) {
    && Sound(g, b) && (forall x | x in Binaries(g, b) :: Served(g, b, x))
    && forall name | name in g.tls :: Present(b, name)
  }

  /** Every library reachable from the roots is there, under its name and with the file it resolves to. */
  ghost predicate Provides(g: Input, b: Bundle) {
    forall name | Required(g, name) :: Present(b, name) && (name in g.candidates ==> g.candidates[name] in b.files)
  }

  lemma FileOfPresent(g: Input, b: Bundle, name: Text)
    requires SettledRequired(g) && Sound(g, b) && Required(g, name) && Present(b, name)
    ensures name in g.candidates ==> g.candidates[name] in b.files
  {
    if name in b.files {
      assert Shipped(g, Library(name));
    } else {
      var file := g.candidates[name];
      assert file !in b.links;
    }
  }

  lemma NextPresent(g: Input, b: Bundle, name: Text, next: Text)
    requires SettledRequired(g) && Complete(g, b)
    requires Required(g, name) && Present(b, name) && IsEdge(g, name, next)
    ensures Present(b, next)
  {
    FileOfPresent(g, b, name);
    var x := Library(g.candidates[name]);
    assert x in Binaries(g, b);
    assert Served(g, b, x);
  }

  lemma FirstPresent(g: Input, b: Bundle, name: Text)
    requires Complete(g, b) && IsStart(g, name)
    ensures Present(b, name)
  {
    if name !in g.tls {
      var path :| path in g.roots && name in g.roots[path] && name in g.private;
      assert Root(path) in Binaries(g, b);
      assert Served(g, b, Root(path));
    }
  }

  lemma {:induction false} PathPresent(g: Input, b: Bundle, path: seq<Text>)
    requires SettledRequired(g) && Complete(g, b)
    requires Path(n => IsStart(g, n), (n, m) => IsEdge(g, n, m), path)
    ensures Present(b, path[|path| - 1])
    decreases |path|
  {
    if |path| == 1 {
      FirstPresent(g, b, path[0]);
    } else {
      var front := path[..|path| - 1];
      PathPresent(g, b, front);
      assert Required(g, path[|path| - 2]);
      assert IsEdge(g, path[|path| - 2], path[|path| - 1]);
      NextPresent(g, b, path[|path| - 2], path[|path| - 1]);
    }
  }

  lemma RequiredArePresent(g: Input, b: Bundle)
    requires SettledRequired(g) && Complete(g, b)
    ensures Provides(g, b)
  {
    forall name | Required(g, name)
      ensures Present(b, name) && (name in g.candidates ==> g.candidates[name] in b.files)
    {
      var path :| Path(n => IsStart(g, n), (n, m) => IsEdge(g, n, m), path) && path[|path| - 1] == name;
      PathPresent(g, b, path);
      FileOfPresent(g, b, name);
    }
  }

  /** The bundle with the file of one name taken out and a link left in its place. */
  function Linked(g: Input, b: Bundle, file: Text): Bundle
    requires file in g.candidates
  {
    Bundle(b.files - {file}, b.links[file := g.candidates[file]])
  }

  lemma LinkedIsComplete(g: Input, b: Bundle, file: Text)
    requires Complete(g, b) && Required(g, file) && file in g.candidates
    requires g.candidates[file] != file && g.candidates[file] in b.files
    ensures Complete(g, Linked(g, b, file))
  {
    var c := Linked(g, b, file);
    assert forall n :: Present(b, n) ==> Present(c, n);
    assert Sound(g, c);
    forall x | x in Binaries(g, c) ensures Served(g, c, x) {
      assert x in Binaries(g, b);
      assert Served(g, b, x);
    }
  }

  /** A bundle that provides everything although the condition fails can be replaced by one that does not. */
  lemma UnsettledCanFail(g: Input, b: Bundle)
    requires !SettledRequired(g) && Complete(g, b)
    ensures exists c :: Complete(g, c) && !Provides(g, c)
  {
    if Provides(g, b) {
      var name :| Required(g, name) && name in g.candidates
                  && Required(g, g.candidates[name]) && g.candidates[name] in g.candidates
                  && g.candidates[g.candidates[name]] != g.candidates[name];
      LinkedIsComplete(g, b, g.candidates[name]);
      assert !Provides(g, Linked(g, b, g.candidates[name]));
    }
  }

  /**
   What a successful run promises guarantees every reachable library exactly when the names are settled: a
   name already present as the file of another one is not looked at again.
   */
  lemma ProvidesIffSettled(g: Input)
    requires exists b :: Complete(g, b)
    ensures (forall b | Complete(g, b) :: Provides(g, b)) <==> SettledRequired(g)
  {
    if SettledRequired(g) {
      forall b | Complete(g, b) ensures Provides(g, b) {
        RequiredArePresent(g, b);
      }
    } else {
      var b :| Complete(g, b);
      UnsettledCanFail(g, b);
    }
  }

  /**
   What can be missing is a library that runs need: `r` is copied as the file of `a` and listed as another
   library of its own, so the file it resolves to and what that needs are never looked at.
   */
  lemma ShadowedNameIsSkipped()
    ensures exists g, b, name :: Complete(g, b) && Required(g, name) && name in g.candidates && !Present(b, name)
  {
    var a, r, q, z, p := Text("a"), Text("r"), Text("q"), Text("z"), Text("p");
    var roots: map<Text, set<Text>>, needs: map<Text, set<Text>> := map[p := {r}], map[q := {z}];
    var g := Input(roots, map[a := r, r := q, z := z], needs, {r, z}, {}, {a});
    var b := Bundle({r}, map[a := r]);
    StartRequired(g, a);
    assert p in g.roots;
    StartRequired(g, r);
    assert IsEdge(g, r, z);
    OneFurther(n => IsStart(g, n), (n, m) => IsEdge(g, n, m), r, z);
    assert Required(g, z);
    assert Shipped(g, Library(r)) && g.candidates[a] == r;
    assert Sound(g, b);
    forall x | x in Binaries(g, b) ensures Served(g, b, x) {
      assert x == Root(p) || x == Library(r);
    }
    assert Complete(g, b) && !Present(b, z);
  }

  // ----- The whole worklist

  /**
   The library part of `stage`. It ends; a bundle it produces serves every binary in it, holds nothing that
   is not required and, when the names are settled, everything that is; and it only gives up for a dependency
   that nothing provides.
   */
  method CollectLibraries(g: Input) returns (problem: Option<Problem>, b: Bundle)
    ensures Sound(g, b)
    ensures problem.None? ==> Complete(g, b)
    ensures problem.None? && SettledRequired(g) ==> Provides(g, b)
    ensures problem.Some? ==> Obstacle(g, problem.value)
  {
    problem, b := CopyTls(g);
    if problem.Some? {
      return;
    }
    var scanned: set<Binary> := {};
    while true
      invariant Sound(g, b) && problem.None? && (forall name | name in g.tls :: Present(b, name))
      invariant forall x | x in scanned :: Served(g, b, x)
      decreases Universe(g) - scanned
    {
      InUniverse(g, b);
      var pending := Binaries(g, b) - scanned;
      if pending == {} {
        forall x | x in Binaries(g, b) ensures x in scanned {
          assert x !in pending;
        }
        if SettledRequired(g) {
          RequiredArePresent(g, b);
        }
        return;
      }
      ghost var x :| x in pending;
      ghost var before := scanned;
      problem, b, scanned := ScanAll(g, b, pending, scanned);
      if problem.Some? {
        return;
      }
      assert x in Universe(g) - before && x !in Universe(g) - scanned;
    }
  }
}

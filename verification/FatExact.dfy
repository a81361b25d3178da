/** Which lists of files survive being built and read back: a condition on the destinations, both ways. */
module FatExact {
  import opened Words
  import opened LittleEndian
  import opened Bags
  import opened FatNames
  import opened FatTree
  import opened FatLayout
  import opened FatWriter
  import opened FatReader
  import opened FatRoundTrip
  import opened FatTheorems

  // ---- where the reader's paths come from ------------------------------------------------------

  /** The text under which the reader lists what lies at p. */
  function ShownPath(p: Path): Text {
    if p == [] then [] else [SLASH] + ShownAs(p[0]) + ShownPath(p[1..])
  }

  /** The reader gets to a file at p. */
  predicate Lives(p: Path, depth: nat) {
    |p| <= depth + 1 && forall n <- p :: Kept(n)
  }

  /** s is listed for a file of the forest. */
  ghost predicate Origin(cs: seq<Node>, prefix: Text, depth: nat, s: Text) {
    exists q: Path :: Lookup(cs, q).Some? && Lives(q, depth) && s == prefix + ShownPath(q)
  }

  lemma OriginRest(cs: seq<Node>, prefix: Text, depth: nat, s: Text)
    requires cs != [] && Distinct(cs) && Origin(cs[1..], prefix, depth, s)
    ensures Origin(cs, prefix, depth, s)
  {
    hide Lives, ShownPath;
    var q: Path :| Lookup(cs[1..], q).Some? && Lives(q, depth) && s == prefix + ShownPath(q);
    HeadFound(cs, q);
  }

  lemma OriginFile(cs: seq<Node>, prefix: Text, depth: nat)
    requires cs != [] && Distinct(cs) && cs[0].File? && Kept(cs[0].name)
    ensures Origin(cs, prefix, depth, prefix + [SLASH] + ShownAs(cs[0].name))
  {
    hide Kept, ShownAs;
    var q := [cs[0].name];
    HeadFound(cs, q);
    assert ShownPath(q) == [SLASH] + ShownAs(cs[0].name) + [];
    assert prefix + ShownPath(q) == prefix + [SLASH] + ShownAs(cs[0].name);
    assert Lives(q, depth);
  }

  lemma OriginBelow(cs: seq<Node>, prefix: Text, depth: nat, s: Text)
    requires cs != [] && Distinct(cs) && cs[0].Dir? && Kept(cs[0].name) && depth > 0
    requires Origin(cs[0].children, prefix + [SLASH] + ShownAs(cs[0].name), depth - 1, s)
    ensures Origin(cs, prefix, depth, s)
  {
    hide Kept, ShownAs;
    var path := prefix + [SLASH] + ShownAs(cs[0].name);
    var q: Path :| Lookup(cs[0].children, q).Some? && Lives(q, depth - 1) && s == path + ShownPath(q);
    var p := [cs[0].name] + q;
    assert p[1..] == q;
    HeadFound(cs, p);
    assert prefix + ShownPath(p) == s;
    assert Lives(p, depth);
  }

  /** Every path in the dictionary was put there for a file that the reader got to. */
  lemma {:induction false} WalkOrigin(cs: seq<Node>, prefix: Text, files: Files, depth: nat, s: Text)
    requires Distinct(cs) && Walk(cs, prefix, files, depth).Ok?
    requires s in Walk(cs, prefix, files, depth).value && s !in files
    ensures Origin(cs, prefix, depth, s)
    decreases cs
  {
    hide Origin, RawName, ShownAs, Dots;
    var c, rest, path := cs[0], cs[1..], prefix + [SLASH] + ShownAs(cs[0].name);
    if Dots(ShownAs(c.name)) {
      WalkOrigin(rest, prefix, files, depth, s);
      OriginRest(cs, prefix, depth, s);
    } else {
      var fs := WalkNode(c, path, files, depth).value;
      if s !in fs {
        WalkOrigin(rest, prefix, fs, depth, s);
        OriginRest(cs, prefix, depth, s);
      } else if c.File? {
        OriginFile(cs, prefix, depth);
      } else {
        WalkOrigin(c.children, path, files, depth - 1, s);
        OriginBelow(cs, prefix, depth, s);
      }
    }
  }

  // ---- lengths ------------------------------------------------------------------------------------

  lemma UpperAppend(s: Text, t: Text)
    ensures Upper(s + t) == Upper(s) + Upper(t)
  {
  }

  /** A path is shown at most as long as it is written, and at that length only in upper case. */
  ghost predicate ShownShort(p: Path) {
    |ShownPath(p)| <= |Join(p)| &&
    (|ShownPath(p)| == |Join(p)| ==> ShownPath(p) == Upper(Join(p)) && forall n <- p :: ShownAs(n) == Upper(n))
  }

  lemma ShownOne(n: Text)
    ensures |ShownAs(n)| <= |n| && (|ShownAs(n)| == |n| ==> ShownAs(n) == Upper(n))
  {
    ShownNoLonger(Upper(n));
    if |ShownAs(n)| == |n| { ShownWhole(Upper(n)); }
  }

  lemma ShownStep(n: Text, p: Path)
    requires ShownShort(p)
    ensures ShownShort([n] + p)
  {
    hide ShownAs;
    assert ([n] + p)[1..] == p;
    assert ShownPath([n] + p) == [SLASH] + ShownAs(n) + ShownPath(p) && Join([n] + p) == [SLASH] + n + Join(p);
    hide ShownPath, Join;
    ShownOne(n);
    UpperAppend([SLASH] + n, Join(p));
    UpperAppend([SLASH], n);
    assert Upper([SLASH]) == [SLASH];
  }

  lemma {:induction false} ShownShorter(p: Path)
    ensures ShownShort(p)
  {
    if p != [] {
      ShownShorter(p[1..]);
      ShownStep(p[0], p[1..]);
      assert p == [p[0]] + p[1..];
    }
  }

  lemma ShownNoLonger(s: Text)
    ensures |Shown(s)| <= |s|
  {
    SplitJoins(s);
  }

  /** p is written no longer than name and s behind a slash, and at that length exactly so. */
  ghost predicate Short(s: Text, name: Text, p: Path) {
    |Join(p)| <= 1 + |name| + |s| && (|Join(p)| == 1 + |name| + |s| ==> Join(p) == [SLASH] + name + s)
  }

  lemma ShortAtSlash(s: Text, name: Text, rest: Path)
    requires s != [] && s[0] == SLASH && Short(s[1..], [], rest)
    ensures Short(s, name, (if name == [] then [] else [name]) + rest)
  {
    JoinOne(name, rest);
    hide Join;
    assert s == [SLASH] + s[1..] == [SLASH] + [] + s[1..];
    assert [] + rest == rest;
  }

  lemma ShortInName(s: Text, name: Text, p: Path)
    requires s != [] && Short(s[1..], name + [s[0]], p)
    ensures Short(s, name, p)
  {
    hide Join;
    assert [SLASH] + (name + [s[0]]) + s[1..] == [SLASH] + name + s;
  }

  lemma ShortAtEnd(name: Text)
    ensures Short([], name, if name == [] then [] else [name])
  {
    JoinOne(name, []);
    assert [name] + [] == [name];
  }

  /** Reading a path from its text loses only superfluous slashes. */
  lemma {:induction false} PartsShorter(s: Text, name: Text)
    ensures Short(s, name, PartsFrom(s, name))
    decreases |s|
  {
    hide Short;
    if s == [] {
      ShortAtEnd(name);
    } else if s[0] == SLASH {
      PartsShorter(s[1..], []);
      ShortAtSlash(s, name, PartsFrom(s[1..], []));
    } else {
      PartsShorter(s[1..], name + [s[0]]);
      ShortInName(s, name, PartsFrom(s[1..], name + [s[0]]));
    }
  }

  lemma JoinOne(n: Text, p: Path)
    ensures Join([n] + p) == [SLASH] + n + Join(p)
  {
    assert ([n] + p)[1..] == p;
  }

  lemma PathShorter(s: Text)
    requires s != [] && s[0] == SLASH
    ensures |Join(Parts(s))| <= |s| && (|Join(Parts(s))| == |s| ==> Join(Parts(s)) == s)
  {
    PartsShorter(s[1..], []);
    assert PartsFrom(s, []) == PartsFrom(s[1..], []);
    assert [SLASH] + [] + s[1..] == s;
  }

  lemma {:induction false} PartsAreNames(s: Text, name: Text)
    requires SLASH !in name
    ensures Names(PartsFrom(s, name))
    decreases |s|
  {
    if s != [] {
      if s[0] == SLASH { PartsAreNames(s[1..], []); } else { PartsAreNames(s[1..], name + [s[0]]); }
    }
  }

  /** A path in upper case has names in upper case. */
  lemma {:induction false} UpperParts(p: Path)
    requires Upper(Join(p)) == Join(p)
    ensures forall n <- p :: Upper(n) == n
  {
    if p != [] {
      var head, rest := [SLASH] + p[0], Join(p[1..]);
      UpperAppend(head, rest);
      UpperAppend([SLASH], p[0]);
      assert Upper(head) == (head + rest)[..|head|] == head && Upper(rest) == (head + rest)[|head|..] == rest;
      assert Upper(p[0]) == head[1..] == p[0];
      UpperParts(p[1..]);
      assert p == [p[0]] + p[1..];
    }
  }

  // ---- every text comes back -------------------------------------------------------------------------

  /**
   * If texts are shown no longer than they are, some perhaps not at all, and yet each of them is the
   * showing of one, then all are shown, and at full length.
   */
  lemma NoneShorter(keys: set<Text>, shown: map<Text, Text>, x: Text)
    requires shown.Keys <= keys <= shown.Values && (forall k <- shown.Keys :: |shown[k]| <= |k|) && x in keys
    ensures x in shown && |shown[x]| == |x|
  {
    var long := set k | k in keys && |k| >= |x|;
    var still := map k | k in shown && |shown[k]| >= |x| :: shown[k];
    forall y | y in long ensures y in still.Values {
      var k :| k in shown && shown[k] == y;
      assert k in still && still[k] == y;
    }
    SubsetSize(long, still.Values);
    assert |still.Values| <= |still.Keys| && still.Keys <= long;
    SubsetSize(still.Keys, long);
    assert x in still.Keys;
  }

  // ---- the exact condition ------------------------------------------------------------------------------

  lemma {:induction false} LookupAll(cs: seq<Node>, q: Path, p: Text -> bool)
    requires AllNames(cs, p) && Lookup(cs, q).Some?
    ensures forall n <- q :: p(n)
    decreases |q|
  {
    var k := IndexOf(cs, q[0]);
    assert q == [q[0]] + q[1..];
    if cs[k].Dir? { LookupAll(cs[k].children, q[1..], p); }
  }

  function Keys(ms: seq<Mapping>): set<Text> { set m | m in ms :: m.dst }

  /** The destinations at which the reader gets to a file, with the texts it lists them under. */
  function ShownKeys(ms: seq<Mapping>, cs: seq<Node>, limit: nat): map<Text, Text> {
    map x | x in Keys(ms) && Lives(Parts(x), limit) && Lookup(cs, Parts(x)).Some? :: ShownPath(Parts(x))
  }

  /** A returned destination is the showing of one. */
  lemma ReturnedOrigin(ms: seq<Mapping>, cs: seq<Node>, limit: nat, r: Outcome<Files>, x: Text)
    requires NamedAll(ms) && SameTree(cs, TreeOf(ms)) && Distinct(cs)
    requires r == Walk(cs, [], map[], limit) && Returned(r, ms) && x in Keys(ms)
    ensures x in ShownKeys(ms, cs, limit).Values && x != [] && x[0] == SLASH
  {
    hide Kept, Walk, TreeOf, ShownAs, Parts, SameTree;
    var m :| m in ms && m.dst == x;
    assert Mapping(x, m.data) in ms;
    assert x in r.value && r.value[x] == m.data;
    WalkOrigin(cs, [], map[], limit, x);
    var q: Path :| Lookup(cs, q).Some? && Lives(q, limit) && x == [] + ShownPath(q);
    SameLookup(cs, TreeOf(ms), q);
    TreeFrom(ms, q, Lookup(cs, q).value);
    var n :| n in ms && Parts(n.dst) == q;
    assert n.dst in ShownKeys(ms, cs, limit) && ShownKeys(ms, cs, limit)[n.dst] == x;
  }

  /** In a list that came back whole every destination is a file, and is shown as it is written. */
  lemma ReturnedWhole(ms: seq<Mapping>, cs: seq<Node>, limit: nat, x: Text)
    requires NamedAll(ms) && SameTree(cs, TreeOf(ms)) && Distinct(cs)
    requires Returned(Walk(cs, [], map[], limit), ms) && x in Keys(ms)
    ensures Lives(Parts(x), limit) && Lookup(cs, Parts(x)).Some? && Join(Parts(x)) == x
    ensures ShownPath(Parts(x)) == Upper(x) && (forall n <- Parts(x) :: ShownAs(n) == Upper(n))
  {
    hide Kept, Walk, TreeOf, ShownAs, Parts, SameTree, ShownPath, Join, Lives, Lookup, Distinct, Returned, Upper;
    var keys, shown := Keys(ms), ShownKeys(ms, cs, limit);
    forall k | k in keys ensures k in shown.Values && (k in shown ==> |shown[k]| <= |Join(Parts(k))| <= |k|) {
      ReturnedOrigin(ms, cs, limit, Walk(cs, [], map[], limit), k);
      PathShorter(k);
      ShownShorter(Parts(k));
    }
    NoneShorter(keys, shown, x);
    ReturnedOrigin(ms, cs, limit, Walk(cs, [], map[], limit), x);
    PathShorter(x);
    ShownShorter(Parts(x));
  }

  lemma ReturnedVisible(ms: seq<Mapping>, cs: seq<Node>, limit: nat, m: Mapping)
    requires NamedAll(ms) && SameTree(cs, TreeOf(ms)) && Distinct(cs) && AllNames(cs, Fits83)
    requires Returned(Walk(cs, [], map[], limit), ms) && m in ms
    ensures |Parts(m.dst)| <= limit + 1 && Join(Parts(m.dst)) == m.dst && forall n <- Parts(m.dst) :: Visible(n)
  {
    hide Walk, TreeOf, ShownAs, Parts, SameTree, ShownPath, Join, Kept, Visible;
    hide Lookup, Distinct, Returned, Upper, Fits83;
    var x := m.dst;
    ReturnedWhole(ms, cs, limit, x);
    ReturnedOrigin(ms, cs, limit, Walk(cs, [], map[], limit), x);
    var y :| y in ShownKeys(ms, cs, limit) && ShownKeys(ms, cs, limit)[y] == x;
    ReturnedWhole(ms, cs, limit, y);
    UpperTwice(y);
    UpperParts(Parts(x));
    PartsNames(x);
    LookupAll(cs, Parts(x), Fits83);
    forall n | n in Parts(x) ensures Visible(n) { VisibleExact(n); }
  }

  /** Nothing lies below a file. */
  lemma {:induction false} FileEnds(cs: seq<Node>, p: Path, q: Path)
    requires p <= q && Lookup(cs, p).Some? && Lookup(cs, q).Some?
    ensures p == q
    decreases |p|
  {
    var k := IndexOf(cs, p[0]);
    if cs[k].Dir? { FileEnds(cs[k].children, p[1..], q[1..]); }
    assert p == [p[0]] + p[1..] && q == [q[0]] + q[1..];
  }

  /** A list that came back whole is consistent. */
  lemma ReturnedConsistent(ms: seq<Mapping>, cs: seq<Node>, limit: nat)
    requires NamedAll(ms) && SameTree(cs, TreeOf(ms)) && Distinct(cs)
    requires Returned(Walk(cs, [], map[], limit), ms)
    ensures Consistent(ms)
  {
    hide Walk, TreeOf, ShownAs, Parts, SameTree, ShownPath, Join, Lookup, Distinct, Upper, Lives;
    var files := Walk(cs, [], map[], limit).value;
    forall m, n | m in ms && n in ms && Parts(m.dst) <= Parts(n.dst)
      ensures Parts(m.dst) == Parts(n.dst) && m.data == n.data
    {
      ReturnedWhole(ms, cs, limit, m.dst);
      ReturnedWhole(ms, cs, limit, n.dst);
      FileEnds(cs, Parts(m.dst), Parts(n.dst));
      assert Mapping(m.dst, m.data) == m && Mapping(n.dst, n.data) == n;
      assert files[m.dst] == m.data && files[n.dst] == n.data;
    }
  }

  lemma UpperTwice(s: Text)
    ensures Upper(Upper(s)) == Upper(s)
  {
  }

  lemma PartsNames(s: Text)
    ensures Names(Parts(s))
  {
    PartsAreNames(s, []);
  }

  /** Every name in the list fits 8.3. */
  predicate NamesFit(ms: seq<Mapping>) { forall m <- ms :: forall n <- Parts(m.dst) :: Fits83(n) }

  lemma {:induction false} InsertAll(cs: seq<Node>, p: Path, data: Bytes, ok: Text -> bool)
    requires p != [] && AllNames(cs, ok) && forall n <- p :: ok(n)
    ensures AllNames(Insert(cs, p, data), ok)
    decreases |p|
  {
    var k := IndexOf(cs, p[0]);
    assert p[0] in p && forall n <- p[1..] :: n in p;
    if |p| > 1 && k == |cs| {
      InsertAll([], p[1..], data, ok);
    } else if |p| > 1 && cs[k].Dir? {
      InsertAll(cs[k].children, p[1..], data, ok);
    }
  }

  lemma {:induction false} TreeFits(ms: seq<Mapping>)
    requires NamedAll(ms) && NamesFit(ms)
    ensures AllNames(TreeOf(ms), Fits83)
  {
    hide Fits83, Parts, AllNames;
    if ms != [] {
      var init, last := ms[..|ms| - 1], ms[|ms| - 1];
      assert last in ms && forall m <- init :: m in ms;
      TreeFits(init);
      InsertAll(TreeOf(init), Parts(last.dst), last.data, Fits83);
    } else {
      NoNames();
    }
  }

  lemma NoNames()
    ensures AllNames([], Fits83)
  {
  }

  /** The names of a consistent list are those of the tree, which the builder tests. */
  lemma FitExact(ms: seq<Mapping>)
    requires NamedAll(ms) && Consistent(ms)
    ensures AllNames(TreeOf(ms), Fits83) <==> NamesFit(ms)
  {
    hide TreeOf, Parts, Fits83, Consistent, AllNames;
    if NamesFit(ms) { TreeFits(ms); }
    if AllNames(TreeOf(ms), Fits83) {
      forall m | m in ms ensures forall n <- Parts(m.dst) :: Fits83(n) {
        assert Given(ms, Parts(m.dst), m.data);
        TreeHolds(ms, Parts(m.dst), m.data);
        LookupAll(TreeOf(ms), Parts(m.dst), Fits83);
      }
    }
  }

  /** The lists that survive, as the builder's caller can tell. */
  ghost predicate Survives(ms: seq<Mapping>, limit: nat) {
    Consistent(ms) && Showable(ms, limit) && forall m <- ms :: Join(Parts(m.dst)) == m.dst
  }

  /**
   * From the image of any list that the builder accepts the validator returns exactly the list if and
   * only if no destination lies below another or is given twice with different contents, every name is
   * visible, no destination is too deep, and each is written with one slash in front of every name.
   */
  lemma RoundTripExact(img: Bytes, g: Geometry, ms: seq<Mapping>, st: Stamp, limit: nat)
    requires NamedAll(ms) && AllNames(TreeOf(ms), Fits83)
    requires Volume(img, g, Assigned(TreeOf(ms), 2), st)
    ensures Returned(FilesOf(img, limit), ms) <==> Survives(ms, limit)
  {
    hide Volume, Visible, TreeOf, Assigned, FilesOf, Walk, Fits83, Parts, Join, SameTree;
    hide Consistent, Returned, AllNames, Distinct;
    var tree, cs := TreeOf(ms), Assigned(TreeOf(ms), 2);
    if Returned(FilesOf(img, limit), ms) {
      TreeDistinct(ms);
      AssignedKeeps(tree);
      SameNames(cs, tree, Fits83);
      VolumeFiles(img, g, cs, st, limit);
      ReturnedConsistent(ms, cs, limit);
      forall m | m in ms
        ensures |Parts(m.dst)| <= limit + 1 && Join(Parts(m.dst)) == m.dst && forall n <- Parts(m.dst) :: Visible(n)
      {
        ReturnedVisible(ms, cs, limit, m);
      }
    }
    if Survives(ms, limit) { RoundTrip(img, g, ms, st, limit); }
  }
}

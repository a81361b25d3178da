/** The order of a tree: every directory lists its names as they first occur among the destinations. */
module FatOrder {
  import opened Words
  import opened LittleEndian
  import opened FatNames
  import opened FatTree

  /** What goes where. */
  datatype Item = Item(path: Path, data: Bytes)

  function Items(ms: seq<Mapping>): (r: seq<Item>)
    ensures |r| == |ms|
  {
    seq(|ms|, i requires 0 <= i < |ms| => Item(Parts(ms[i].dst), ms[i].data))
  }

  predicate Named(xs: seq<Item>) { forall x <- xs :: x.path != [] }

  /** No item lies below another, and none is given twice with different contents. */
  ghost predicate Fitting(xs: seq<Item>) {
    Named(xs) && forall x, y :: x in xs && y in xs && x.path <= y.path ==> x.path == y.path && x.data == y.data
  }

  /** The tree of the items. */
  function Grown(xs: seq<Item>): seq<Node>
    requires Named(xs)
  {
    if xs == [] then [] else Insert(Grown(xs[..|xs| - 1]), xs[|xs| - 1].path, xs[|xs| - 1].data)
  }

  /** The first names of the items, each once, in the order in which they first occur. */
  function Firsts(xs: seq<Item>): (r: seq<Text>)
    requires Named(xs)
    ensures forall i, j :: 0 <= i < j < |r| ==> r[i] != r[j]
    ensures forall n :: n in r <==> exists x :: x in xs && x.path[0] == n
  {
    if xs == [] then []
    else
      var init, last := xs[..|xs| - 1], xs[|xs| - 1];
      assert xs == init + [last];
      if last.path[0] in Firsts(init) then Firsts(init) else Firsts(init) + [last.path[0]]
  }

  /** The items below the first name n, without it. */
  function Below(xs: seq<Item>, n: Text): (r: seq<Item>)
    requires Named(xs)
    ensures Named(r)
    ensures forall y :: y in r <==> y.path != [] && Item([n] + y.path, y.data) in xs
  {
    if xs == [] then []
    else
      var init, last := xs[..|xs| - 1], xs[|xs| - 1];
      assert xs == init + [last];
      if last.path[0] == n && |last.path| > 1 then
        assert last == Item([n] + last.path[1..], last.data);
        Below(init, n) + [Item(last.path[1..], last.data)]
      else
        assert forall p: Path, d: Bytes :: p != [] ==> Item([n] + p, d) != last;
        Below(init, n)
  }

  /** The node of a first name: the file that is given there, or the directory of all that lies below. */
  ghost predicate NodeFor(c: Node, xs: seq<Item>)
    requires Named(xs)
  {
    match c
    case File(n, data, _, _) => Item([n], data) in xs && Below(xs, n) == []
    case Dir(n, children, _, _) => Below(xs, n) != [] && children == Grown(Below(xs, n))
  }

  /** The tree has one node for each first name, in their order. */
  ghost predicate InOrder(cs: seq<Node>, xs: seq<Item>)
    requires Named(xs)
  {
    |cs| == |Firsts(xs)| && forall i :: 0 <= i < |cs| ==> cs[i].name == Firsts(xs)[i] && NodeFor(cs[i], xs)
  }

  lemma BelowFirst(xs: seq<Item>, n: Text)
    requires Named(xs)
    ensures Below(xs, n) != [] ==> n in Firsts(xs)
  {
    if Below(xs, n) != [] {
      var y := Below(xs, n)[0];
      assert y in Below(xs, n) && ([n] + y.path)[0] == n;
    }
  }

  lemma NotBoth(xs: seq<Item>, n: Text, data: Bytes, x: Item)
    requires Named(xs) && Item([n], data) in xs && x in xs && |x.path| > 1 && x.path[0] == n
    ensures !Fitting(xs)
  {
    assert Item([n], data).path <= x.path;
  }

  lemma SomeBelow(xs: seq<Item>, n: Text) returns (x: Item)
    requires Named(xs) && Below(xs, n) != []
    ensures x in xs && |x.path| > 1 && x.path[0] == n
  {
    var y := Below(xs, n)[0];
    assert y in Below(xs, n);
    x := Item([n] + y.path, y.data);
  }

  /** A file and something below it are not both given. */
  lemma FileAlone(xs: seq<Item>, n: Text, data: Bytes)
    requires Fitting(xs) && Item([n], data) in xs
    ensures Below(xs, n) == []
  {
    assert Named(xs);
    hide Fitting, Below;
    if Below(xs, n) != [] {
      var x := SomeBelow(xs, n);
      NotBoth(xs, n, data, x);
    }
  }

  /** Where something is to be put below a name, there is a directory. */
  lemma DirThere(c: Node, init: seq<Item>, x: Item)
    requires Fitting(init + [x]) && Named(init + [x]) && Named(init) && NodeFor(c, init)
    requires c.name == x.path[0] && |x.path| > 1
    ensures c.Dir?
  {
    hide Fitting, Below;
    if c.File? { NotBoth(init + [x], c.name, c.data, x); }
  }

  lemma FirstIndex(cs: seq<Node>, xs: seq<Item>, n: Text)
    requires Named(xs) && InOrder(cs, xs)
    ensures IndexOf(cs, n) < |cs| <==> n in Firsts(xs)
  {
    hide NodeFor;
    if n in Firsts(xs) {
      var i :| 0 <= i < |Firsts(xs)| && Firsts(xs)[i] == n;
      assert cs[i].name == n;
    }
  }

  lemma {:induction false} GrownInOrder(xs: seq<Item>)
    requires Fitting(xs)
    ensures InOrder(Grown(xs), xs)
  {
    if xs != [] {
      var init, x := xs[..|xs| - 1], xs[|xs| - 1];
      assert xs == init + [x];
      GrownInOrder(init);
      OneMore(Grown(init), init, x);
    }
  }

  lemma FirstsNext(init: seq<Item>, x: Item)
    requires Named(init + [x]) && Named(init)
    ensures Firsts(init + [x]) == if x.path[0] in Firsts(init) then Firsts(init) else Firsts(init) + [x.path[0]]
  {
    assert (init + [x])[..|init|] == init;
  }

  /** Inserting one more item keeps the order. */
  lemma OneMore(cs: seq<Node>, init: seq<Item>, x: Item)
    requires Fitting(init + [x]) && Named(init) && InOrder(cs, init)
    ensures InOrder(Insert(cs, x.path, x.data), init + [x])
  {
    assert x in init + [x];
    hide NodeFor, Firsts, Below, Insert;
    var xs, k, ds := init + [x], IndexOf(cs, x.path[0]), Insert(cs, x.path, x.data);
    FirstIndex(cs, init, x.path[0]);
    FirstsNext(init, x);
    NewNode(cs, init, x);
    forall i | 0 <= i < |ds| ensures ds[i].name == Firsts(xs)[i] && NodeFor(ds[i], xs) {
      if i != k { OtherNode(cs, init, x, i); }
    }
  }

  lemma OtherNode(cs: seq<Node>, init: seq<Item>, x: Item, i: nat)
    requires Named(init + [x]) && Named(init) && InOrder(cs, init) && i < |cs| && i != IndexOf(cs, x.path[0])
    ensures NodeFor(cs[i], init + [x])
  {
    hide NodeFor;
    var k := IndexOf(cs, x.path[0]);
    assert k < |cs| ==> Firsts(init)[i] != Firsts(init)[k];
    SameBelow(init, x, cs[i]);
  }

  lemma SameBelow(init: seq<Item>, x: Item, c: Node)
    requires Named(init + [x]) && Named(init) && c.name != x.path[0] && NodeFor(c, init)
    ensures NodeFor(c, init + [x])
  {
    assert (init + [x])[..|init|] == init;
  }

  /** The node at which the item is inserted. */
  lemma NewNode(cs: seq<Node>, init: seq<Item>, x: Item)
    requires Fitting(init + [x]) && Named(init) && InOrder(cs, init)
    ensures var k, ds := IndexOf(cs, x.path[0]), Insert(cs, x.path, x.data);
      |ds| == (if k < |cs| then |cs| else |cs| + 1) && ds[k].name == x.path[0] && NodeFor(ds[k], init + [x]) &&
      forall i :: 0 <= i < |cs| && i != k ==> ds[i] == cs[i]
  {
    var xs, n, k := init + [x], x.path[0], IndexOf(cs, x.path[0]);
    assert xs[..|init|] == init && x in xs;
    FirstIndex(cs, init, n);
    if |x.path| == 1 {
      assert x == Item([n], x.data);
      FileAlone(xs, n, x.data);
    } else {
      MoreBelow(init, x, n);
      if k == |cs| {
        BelowFirst(init, n);
        OneBelow(x);
      } else {
        assert NodeFor(cs[k], init);
        DirThere(cs[k], init, x);
      }
    }
  }

  lemma OneBelow(x: Item)
    requires |x.path| > 1
    ensures Grown([Item(x.path[1..], x.data)]) == Insert([], x.path[1..], x.data)
  {
    var ys := [Item(x.path[1..], x.data)];
    assert ys[..0] == [];
  }

  lemma MoreBelow(init: seq<Item>, x: Item, n: Text)
    requires Named(init + [x]) && Named(init) && |x.path| > 1 && x.path[0] == n
    ensures Below(init + [x], n) == Below(init, n) + [Item(x.path[1..], x.data)]
    ensures Grown(Below(init + [x], n)) == Insert(Grown(Below(init, n)), x.path[1..], x.data)
  {
    assert (init + [x])[..|init|] == init;
    var ys := Below(init, n) + [Item(x.path[1..], x.data)];
    assert ys[..|ys| - 1] == Below(init, n);
  }

  // ---- all levels -----------------------------------------------------------------------------

  /** The forest lists the items in order, and so does every directory in it. */
  ghost predicate Ordered(cs: seq<Node>, xs: seq<Item>)
    requires Named(xs)
    decreases cs
  {
    InOrder(cs, xs) && forall i :: 0 <= i < |cs| && cs[i].Dir? ==> Ordered(cs[i].children, Below(xs, cs[i].name))
  }

  lemma FittingBelow(xs: seq<Item>, n: Text)
    requires Fitting(xs)
    ensures Fitting(Below(xs, n))
  {
    forall x, y | x in Below(xs, n) && y in Below(xs, n) && x.path <= y.path ensures x.path == y.path && x.data == y.data {
      var x', y' := Item([n] + x.path, x.data), Item([n] + y.path, y.data);
      assert x' in xs && y' in xs && x'.path <= y'.path;
      assert x.path == x'.path[1..] && y.path == y'.path[1..];
    }
  }

  lemma {:induction false} GrownOrdered(cs: seq<Node>, xs: seq<Item>)
    requires Fitting(xs) && cs == Grown(xs)
    ensures Ordered(cs, xs)
    decreases cs
  {
    GrownInOrder(xs);
    forall i | 0 <= i < |cs| && cs[i].Dir? ensures Ordered(cs[i].children, Below(xs, cs[i].name)) {
      FittingBelow(xs, cs[i].name);
      assert NodeFor(cs[i], xs);
      GrownOrdered(cs[i].children, Below(xs, cs[i].name));
    }
  }

  lemma {:induction false} TreeIsGrown(ms: seq<Mapping>)
    requires forall m <- ms :: Parts(m.dst) != []
    ensures Named(Items(ms)) && TreeOf(ms) == Grown(Items(ms))
  {
    hide Parts;
    if ms != [] {
      TreeIsGrown(ms[..|ms| - 1]);
      assert Items(ms)[..|ms| - 1] == Items(ms[..|ms| - 1]);
    }
  }

  lemma ItemsFit(ms: seq<Mapping>)
    requires Consistent(ms) && forall m <- ms :: Parts(m.dst) != []
    ensures Fitting(Items(ms))
  {
    hide Parts;
    forall x, y | x in Items(ms) && y in Items(ms) && x.path <= y.path ensures x.path == y.path && x.data == y.data {
      var i :| 0 <= i < |ms| && Items(ms)[i] == x;
      var j :| 0 <= j < |ms| && Items(ms)[j] == y;
      assert ms[i] in ms && ms[j] in ms;
    }
  }

  /** In the tree of a consistent list every directory lists its names in the order of the list. */
  lemma TreeOrdered(ms: seq<Mapping>)
    requires Consistent(ms) && forall m <- ms :: Parts(m.dst) != []
    ensures Named(Items(ms)) && Ordered(TreeOf(ms), Items(ms))
  {
    TreeIsGrown(ms);
    ItemsFit(ms);
    GrownOrdered(TreeOf(ms), Items(ms));
  }
}

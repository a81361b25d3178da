/** The tree that the image builder makes of its list of destinations. */
module FatTree {
  import opened Words
  import opened LittleEndian
  import opened FatNames

  /** A file or directory; cluster and nclusters are zero until clusters are assigned. */
  datatype Node =
    | File(name: Text, data: Bytes, cluster: nat, nclusters: nat)
    | Dir(name: Text, children: seq<Node>, cluster: nat, nclusters: nat)

  type Path = seq<Text>

  function IndexOf(cs: seq<Node>, name: Text): (k: nat)
    ensures k <= |cs| && (k < |cs| ==> cs[k].name == name)
    ensures forall j :: 0 <= j < k ==> cs[j].name != name
  {
    if cs == [] then 0 else if cs[0].name == name then 0 else 1 + IndexOf(cs[1..], name)
  }

  /**
   * Puts data at path p below a directory with the given children. Missing directories are added, an
   * entry of that name is replaced, and what is put below a file is never looked at again.
   */
  function Insert(cs: seq<Node>, p: Path, data: Bytes): (r: seq<Node>)
    requires p != []
    ensures r != []
    decreases |p|
  {
    var k := IndexOf(cs, p[0]);
    if |p| == 1 then
      var file := File(p[0], data, 0, 0);
      if k < |cs| then cs[k := file] else cs + [file]
    else if k == |cs| then cs + [Dir(p[0], Insert([], p[1..], data), 0, 0)]
    else if cs[k].File? then cs
    else cs[k := cs[k].(children := Insert(cs[k].children, p[1..], data))]
  }

  /** The contents of the file at path p. */
  function Lookup(cs: seq<Node>, p: Path): Option<Bytes>
    decreases |p|
  {
    if p == [] then None
    else
      var k := IndexOf(cs, p[0]);
      if k == |cs| then None
      else match cs[k]
        case File(_, data, _, _) => if |p| == 1 then Some(data) else None
        case Dir(_, children, _, _) => Lookup(children, p[1..])
  }

  /** A file lies on the way to p. */
  ghost predicate Blocked(cs: seq<Node>, p: Path) {
    exists i :: 0 < i < |p| && Lookup(cs, p[..i]).Some?
  }

  /** Names differ within every directory. */
  predicate Distinct(cs: seq<Node>) {
    (forall i, j :: 0 <= i < j < |cs| ==> cs[i].name != cs[j].name) &&
    (forall i :: 0 <= i < |cs| && cs[i].Dir? ==> Distinct(cs[i].children))
  }

  lemma IndexOfUpdate(cs: seq<Node>, k: nat, c: Node, name: Text)
    requires k <= |cs| && k == IndexOf(cs, c.name)
    ensures IndexOf(if k < |cs| then cs[k := c] else cs + [c], name) ==
      if name == c.name then k
      else if IndexOf(cs, name) == |cs| then (if k < |cs| then |cs| else |cs| + 1)
      else IndexOf(cs, name)
  {
    var ds := if k < |cs| then cs[k := c] else cs + [c];
    var i, j := IndexOf(cs, name), IndexOf(ds, name);
    if name == c.name {
      assert ds[k].name == name;
    } else {
      if i < |cs| { assert ds[i].name == name; }
      if j < |ds| && j < |cs| { assert cs[j].name == name; }
    }
  }

  /** What lies at q in the directory in which entry c has been put. */
  lemma LookupUpdate(cs: seq<Node>, c: Node, q: Path)
    requires q != []
    ensures var k := IndexOf(cs, c.name);
      var ds := if k < |cs| then cs[k := c] else cs + [c];
      Lookup(ds, q) ==
        if q[0] != c.name then Lookup(cs, q)
        else match c
          case File(_, data, _, _) => if |q| == 1 then Some(data) else None
          case Dir(_, children, _, _) => Lookup(children, q[1..])
  {
    IndexOfUpdate(cs, IndexOf(cs, c.name), c, q[0]);
  }

  /** Blocked, one step down. */
  lemma BlockedBelow(cs: seq<Node>, p: Path)
    requires |p| > 1
    ensures var k := IndexOf(cs, p[0]);
      Blocked(cs, p) <==> k < |cs| && (cs[k].File? || Blocked(cs[k].children, p[1..]))
  {
    var k := IndexOf(cs, p[0]);
    if Blocked(cs, p) {
      var i :| 0 < i < |p| && Lookup(cs, p[..i]).Some?;
      LookupPrefix(cs, p, i);
      if cs[k].Dir? { assert i - 1 > 0 && Lookup(cs[k].children, p[1..][..i - 1]).Some?; }
    }
    if k < |cs| && cs[k].File? {
      LookupPrefix(cs, p, 1);
      assert Lookup(cs, p[..1]).Some?;
    }
    if k < |cs| && cs[k].Dir? && Blocked(cs[k].children, p[1..]) {
      var i :| 0 < i < |p[1..]| && Lookup(cs[k].children, p[1..][..i]).Some?;
      LookupPrefix(cs, p, i + 1);
      assert Lookup(cs, p[..i + 1]).Some?;
    }
  }

  lemma LookupPrefix(cs: seq<Node>, p: Path, i: nat)
    requires 0 < i <= |p|
    ensures var k := IndexOf(cs, p[0]);
      Lookup(cs, p[..i]) ==
        if k == |cs| then None
        else if cs[k].File? then (if i == 1 then Some(cs[k].data) else None)
        else Lookup(cs[k].children, p[1..][..i - 1])
  {
    assert p[..i][0] == p[0] && p[..i][1..] == p[1..][..i - 1];
  }

  lemma NothingBlocked(p: Path)
    ensures !Blocked([], p)
  {
  }

  lemma NotBlockedAtTop(cs: seq<Node>, p: Path)
    requires |p| <= 1
    ensures !Blocked(cs, p)
  {
  }

  /**
   * Insertion on the level of paths: it happens unless a file lies on the way, replaces what was at p
   * and below p, and leaves everything else as it was.
   */
  lemma {:induction false} InsertLookup(cs: seq<Node>, p: Path, data: Bytes, q: Path)
    requires p != [] && q != []
    ensures Lookup(Insert(cs, p, data), q) ==
      if Blocked(cs, p) then Lookup(cs, q) else if q == p then Some(data) else if p < q then None else Lookup(cs, q)
    decreases |p|
  {
    hide IndexOf, Blocked;
    var k := IndexOf(cs, p[0]);
    if |p| == 1 {
      NotBlockedAtTop(cs, p);
      LookupUpdate(cs, File(p[0], data, 0, 0), q);
    } else {
      BlockedBelow(cs, p);
      var below := if k < |cs| && cs[k].Dir? then cs[k].children else [];
      if k == |cs| || cs[k].Dir? {
        var inner := Insert(below, p[1..], data);
        var child := if k < |cs| then cs[k].(children := inner) else Dir(p[0], inner, 0, 0);
        LookupUpdate(cs, child, q);
        NothingBlocked(p[1..]);
        if q[0] == p[0] && |q| > 1 {
          InsertLookup(below, p[1..], data, q[1..]);
          assert p == [p[0]] + p[1..] && q == [q[0]] + q[1..];
        }
      }
    }
  }

  lemma {:induction false} InsertDistinct(cs: seq<Node>, p: Path, data: Bytes)
    requires p != [] && Distinct(cs)
    ensures Distinct(Insert(cs, p, data))
    decreases |p|
  {
    if |p| > 1 {
      var k := IndexOf(cs, p[0]);
      if k == |cs| {
        InsertDistinct([], p[1..], data);
      } else if cs[k].Dir? {
        InsertDistinct(cs[k].children, p[1..], data);
      }
    }
  }

  // ---- the list of destinations ---------------------------------------------------------

  /** A destination path with the contents that go there. */
  datatype Mapping = Mapping(dst: Text, data: Bytes)

  function TreeOf(ms: seq<Mapping>): seq<Node>
    requires forall m <- ms :: Parts(m.dst) != []
  {
    if ms == [] then []
    else var last := ms[|ms| - 1]; Insert(TreeOf(ms[..|ms| - 1]), Parts(last.dst), last.data)
  }

  /** The non-empty names between the slashes of s. */
  function Parts(s: Text): Path { PartsFrom(s, []) }

  function PartsFrom(s: Text, name: Text): Path
    decreases |s|
  {
    var done := if name == [] then [] else [name];
    if s == [] then done
    else if s[0] == SLASH then done + PartsFrom(s[1..], [])
    else PartsFrom(s[1..], name + [s[0]])
  }

  function Join(p: Path): Text {
    if p == [] then [] else [SLASH] + p[0] + Join(p[1..])
  }

  predicate IsName(n: Text) { n != [] && SLASH !in n }

  predicate Names(p: Path) { forall n <- p :: IsName(n) }

  lemma {:induction false} PartsOfName(n: Text, rest: Text, name: Text)
    requires SLASH !in n && (rest == [] || rest[0] == SLASH)
    ensures PartsFrom(n + rest, name) == PartsFrom(rest, name + n)
    decreases |n|
  {
    if n == [] {
      assert n + rest == rest && name + n == name;
    } else {
      assert (n + rest)[1..] == n[1..] + rest;
      PartsOfName(n[1..], rest, name + [n[0]]);
      assert name + [n[0]] + n[1..] == name + n;
    }
  }

  lemma {:induction false} PartsOfJoin(p: Path)
    requires Names(p)
    ensures Parts(Join(p)) == p
  {
    if p != [] {
      assert IsName(p[0]);
      PartsOfJoin(p[1..]);
      var rest := Join(p[1..]);
      assert ([SLASH] + p[0] + rest)[1..] == p[0] + rest;
      PartsOfName(p[0], rest, []);
      assert [] + p[0] == p[0];
      PartsAtSlash(rest, p[0]);
    }
  }

  lemma PartsAtSlash(rest: Text, name: Text)
    requires name != [] && (rest == [] || rest[0] == SLASH)
    ensures PartsFrom(rest, name) == [name] + PartsFrom(rest, [])
  {
  }

  /** The names of a path, each behind a slash (code 47). */
  function Slashed(p: Path): Text {
    if p == [] then [] else [47] + p[0] + Slashed(p[1..])
  }

  /** The text of a path, in character codes, and what is split from it. */
  lemma {:induction false} SlashedParts(p: Path)
    ensures Join(p) == Slashed(p)
    ensures (forall n <- p :: n != [] && 47 !in n) ==> Parts(Slashed(p)) == p
  {
    SlashedJoin(p);
    if forall n <- p :: n != [] && 47 !in n { PartsOfJoin(p); }
  }

  lemma {:induction false} SlashedJoin(p: Path)
    ensures Join(p) == Slashed(p)
  {
    if p != [] { SlashedJoin(p[1..]); }
  }

  /** A path is told by its text. */
  lemma JoinInjective(p: Path, q: Path)
    requires Names(p) && Names(q) && Join(p) == Join(q)
    ensures p == q
  {
    PartsOfJoin(p);
    PartsOfJoin(q);
  }

  /** No destination lies below another, and the same one is not given with different contents. */
  ghost predicate Consistent(ms: seq<Mapping>) {
    forall m, n :: m in ms && n in ms && Parts(m.dst) <= Parts(n.dst) ==> Parts(m.dst) == Parts(n.dst) && m.data == n.data
  }

  /** The list puts data at q. */
  ghost predicate Given(ms: seq<Mapping>, q: Path, data: Bytes) {
    exists m :: m in ms && Parts(m.dst) == q && m.data == data
  }

  lemma GivenStep(ms: seq<Mapping>, q: Path, data: Bytes)
    requires ms != []
    ensures var last := ms[|ms| - 1];
      Given(ms, q, data) <==> Given(ms[..|ms| - 1], q, data) || (Parts(last.dst) == q && last.data == data)
  {
    assert ms == ms[..|ms| - 1] + [ms[|ms| - 1]];
  }

  /** Every file of the tree is in the list. */
  lemma {:induction false} TreeFrom(ms: seq<Mapping>, q: Path, data: Bytes)
    requires forall m <- ms :: Parts(m.dst) != []
    requires Lookup(TreeOf(ms), q) == Some(data)
    ensures Given(ms, q, data)
  {
    hide Parts, Given, Blocked;
    if ms != [] {
      var init, last := ms[..|ms| - 1], ms[|ms| - 1];
      InsertLookup(TreeOf(init), Parts(last.dst), last.data, q);
      if Lookup(TreeOf(init), q) == Some(data) { TreeFrom(init, q, data); }
      GivenStep(ms, q, data);
    }
  }

  lemma NothingAbove(ms: seq<Mapping>, above: Path, data: Bytes)
    requires ms != [] && Consistent(ms) && above < Parts(ms[|ms| - 1].dst)
    ensures !Given(ms[..|ms| - 1], above, data)
  {
    hide Parts;
    assert ms[|ms| - 1] in ms && forall m <- ms[..|ms| - 1] :: m in ms;
  }

  /** In a consistent list nothing is put below a file. */
  lemma NotBlocked(ms: seq<Mapping>)
    requires ms != [] && Consistent(ms) && forall m <- ms :: Parts(m.dst) != []
    ensures !Blocked(TreeOf(ms[..|ms| - 1]), Parts(ms[|ms| - 1].dst))
  {
    hide Parts, TreeOf, Given, Consistent;
    var init, p := ms[..|ms| - 1], Parts(ms[|ms| - 1].dst);
    forall i | 0 < i < |p| ensures Lookup(TreeOf(init), p[..i]).None? {
      var found := Lookup(TreeOf(init), p[..i]);
      if found.Some? {
        NothingAbove(ms, p[..i], found.value);
        TreeFrom(init, p[..i], found.value);
      }
    }
  }

  /** At and below its own path, only the last destination of a consistent list counts. */
  lemma GivenAtLast(ms: seq<Mapping>, q: Path, data: Bytes)
    requires ms != [] && Consistent(ms) && Parts(ms[|ms| - 1].dst) <= q
    ensures Given(ms, q, data) <==> q == Parts(ms[|ms| - 1].dst) && data == ms[|ms| - 1].data
  {
    hide Parts;
    assert ms[|ms| - 1] in ms;
  }

  /** With consistent destinations the tree holds exactly the listed files. */
  lemma {:induction false} TreeHolds(ms: seq<Mapping>, q: Path, data: Bytes)
    requires forall m <- ms :: Parts(m.dst) != []
    requires Consistent(ms) && q != []
    ensures Lookup(TreeOf(ms), q) == Some(data) <==> Given(ms, q, data)
  {
    hide Parts, Given, Blocked;
    if ms == [] {
      NothingGiven(q, data);
    } else {
      var init, last := ms[..|ms| - 1], ms[|ms| - 1];
      assert forall m <- init :: m in ms;
      NotBlocked(ms);
      InsertLookup(TreeOf(init), Parts(last.dst), last.data, q);
      if Parts(last.dst) <= q {
        GivenAtLast(ms, q, data);
      } else {
        TreeHolds(init, q, data);
        GivenStep(ms, q, data);
      }
    }
  }

  lemma NothingGiven(q: Path, data: Bytes)
    ensures !Given([], q, data)
  {
  }

  lemma {:induction false} TreeDistinct(ms: seq<Mapping>)
    requires forall m <- ms :: Parts(m.dst) != []
    ensures Distinct(TreeOf(ms))
  {
    if ms != [] {
      TreeDistinct(ms[..|ms| - 1]);
      InsertDistinct(TreeOf(ms[..|ms| - 1]), Parts(ms[|ms| - 1].dst), ms[|ms| - 1].data);
    }
  }
}

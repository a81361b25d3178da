/** Names that fit 8.3 and are packed, and that the validator does not give back. */
module FatExamples {
  import opened Words
  import opened LittleEndian
  import opened FatNames
  import opened FatTree
  import opened FatLayout
  import opened FatWriter
  import opened FatReader
  import opened FatRoundTrip
  import opened FatTheorems

  const A: Text := ['A' as int]

  /** The file called "." is lost, although its name is canonical; the file after it is returned. */
  method DotLost(st: Stamp) returns (b: BuildResult, r: Outcome<Files>)
    ensures Canonical([DOT]) && !Visible([DOT])
    ensures b.Built? && r == Ok(map[[SLASH] + A := [8]])
  {
    DotName();
    b, r := BuildAndRead([DOT], st);
    WalkLast(Assigned([File([DOT], [7], 0, 0), File(A, [8], 0, 0)], 2)[1]);
  }

  /** A name that starts with NUL ends the directory: it is lost, and the file after it as well. */
  method RestLost(st: Stamp) returns (b: BuildResult, r: Outcome<Files>)
    ensures Canonical([0]) && !Visible([0])
    ensures b.Built? && r == Ok(map[])
  {
    NulName();
    b, r := BuildAndRead([0], st);
  }

  /** Builds a volume with 7 under the name and 8 under A, and reads it back. */
  method BuildAndRead(name: Text, st: Stamp) returns (b: BuildResult, r: Outcome<Files>)
    requires IsName(name) && Fits83(name) && name != A
    ensures b.Built? && r == Walk(Assigned([File(name, [7], 0, 0), File(A, [8], 0, 0)], 2), [], map[], 0)
  {
    hide Volume, Assigned, Walk, FilesOf, Fits83, AllNames, TreeOf, Total, LaidOut, SizeOk, Clusters, Sectors, GeometryFor;
    var ms := [Mapping([SLASH] + name, [7]), Mapping([SLASH] + A, [8])];
    TwoFiles(ms, name);
    TwoAccepted(name);
    EightMib();
    b := Build(8, ms, st);
    r := Fat16Files(b.image, 0);
    AssignedFacts(TreeOf(ms), 2);
    VolumeFiles(b.image, GeometryFor(8), Assigned(TreeOf(ms), 2), st, 0);
  }

  lemma EightMib()
    ensures SizeOk(8) && Clusters(Sectors(8)) >= 4085
  {
  }

  lemma TwoFiles(ms: seq<Mapping>, name: Text)
    requires ms == [Mapping([SLASH] + name, [7]), Mapping([SLASH] + A, [8])] && IsName(name) && name != A
    ensures NamedAll(ms) && TreeOf(ms) == [File(name, [7], 0, 0), File(A, [8], 0, 0)]
  {
    OnePart(name);
    OnePart(A);
    assert ms[..1][..0] == [];
    assert TreeOf([]) == [];
    assert TreeOf(ms[..1]) == [File(name, [7], 0, 0)];
  }

  lemma OnePart(name: Text)
    requires IsName(name)
    ensures Parts([SLASH] + name) == [name]
  {
    PartsOfJoin([name]);
    assert Join([]) == [] && Join([name]) == [SLASH] + name + Join([]) == [SLASH] + name;
  }

  lemma TwoAccepted(name: Text)
    requires Fits83(name)
    ensures var cs := [File(name, [7], 0, 0), File(A, [8], 0, 0)]; Total(cs) == 2 && AllNames(cs, Fits83)
  {
    var cs := [File(name, [7], 0, 0), File(A, [8], 0, 0)];
    assert Canonical(A);
    NameRoundTrip(A);
    assert Total(cs[1..]) == 1;
  }

  lemma DotName()
    ensures Canonical([DOT]) && Fits83([DOT]) && RawName([DOT])[0] == DOT && ShownAs([DOT]) == [DOT]
  {
    assert Upper([DOT]) == [DOT];
    NameRoundTrip([DOT]);
    CanonicalIsShown([DOT]);
    CanonicalRaw([DOT]);
  }

  lemma NulName()
    ensures Canonical([0]) && Fits83([0]) && RawName([0])[0] == 0
  {
    assert Upper([0]) == [0];
    NameRoundTrip([0]);
    CanonicalRaw([0]);
  }

  lemma WalkLast(c: Node)
    requires c.File? && c.name == A
    ensures Walk([c], [], map[], 0) == Ok(map[[SLASH] + A := c.data])
  {
    assert Visible(A) by { assert Upper(A) == A; }
    VisibleKept(A);
    assert [] + [SLASH] + ShownAs(A) == [SLASH] + A;
  }
}

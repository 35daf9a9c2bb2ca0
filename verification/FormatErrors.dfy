/**
 Flattening of a validation-error tree into printed paths (backend_nest/src/formatError.ts).
 `numeric` is the language's test for a string that converts to a number; nothing below depends on
 which strings pass it.
 */
module FormatErrors {
  import opened Prelude

  /** One validation error; `constraints` are its messages, children its nested errors. */
  datatype Node = Node(property: string, constraints: seq<string>, children: seq<Node>)

  datatype Entry = Entry(field: string, message: string)

  function ChildPath(parent: string, property: string, numeric: string -> bool): string {
    if parent == "" then property
    else if numeric(property) then parent + "[" + property + "]"
    else parent + "." + property
  }

  function OwnEntry(node: Node, path: string): seq<Entry> {
    if node.constraints != [] then [Entry(path, node.constraints[0])] else []
  }

  function Flatten(errors: seq<Node>, parent: string, numeric: string -> bool): seq<Entry>
    decreases errors
  {
    if errors == [] then []
    else
      var node := errors[|errors| - 1];
      var path := ChildPath(parent, node.property, numeric);
      Flatten(errors[..|errors| - 1], parent, numeric) + OwnEntry(node, path) + Flatten(node.children, path, numeric)
  }

  lemma FlattenNext(errors: seq<Node>, parent: string, numeric: string -> bool, i: nat)
    requires i < |errors|
    ensures var path := ChildPath(parent, errors[i].property, numeric);
            Flatten(errors[..i + 1], parent, numeric) ==
              Flatten(errors[..i], parent, numeric) + OwnEntry(errors[i], path) + Flatten(errors[i].children, path, numeric)
  {
    assert errors[..i + 1][..i] == errors[..i];
  }

  /** The recursive loop of the service. */
  method FormatErrors(errors: seq<Node>, parentPath: string, numeric: string -> bool) returns (result: seq<Entry>)
    ensures result == Flatten(errors, parentPath, numeric)
    decreases errors
  {
    result := [];
    var i := 0;
    while i < |errors|
      invariant 0 <= i <= |errors|
      invariant result == Flatten(errors[..i], parentPath, numeric)
    {
      FlattenNext(errors, parentPath, numeric, i);
      var propertyPath := ChildPath(parentPath, errors[i].property, numeric);
      result := result + OwnEntry(errors[i], propertyPath);
      var nested := [];
      if |errors[i].children| > 0 {
        nested := FormatErrors(errors[i].children, propertyPath, numeric);
      }
      result := result + nested;
      i := i + 1;
    }
    assert errors[..i] == errors;
  }

  // ---------- nodes and their addresses ----------

  /** A node is addressed by the positions on the way to it; the names on that way are its key. */
  function NodeAt(errors: seq<Node>, address: seq<nat>): Option<Node>
    decreases address
  {
    if address == [] || address[0] >= |errors| then None
    else if |address| == 1 then Some(errors[address[0]])
    else NodeAt(errors[address[0]].children, address[1..])
  }

  function NamesTo(errors: seq<Node>, address: seq<nat>): seq<string>
    decreases address
  {
    if address == [] || address[0] >= |errors| then []
    else [errors[address[0]].property] + NamesTo(errors[address[0]].children, address[1..])
  }

  /** Preorder: a node comes before its descendants and before everything in later siblings. */
  predicate Before(a: seq<nat>, b: seq<nat>) {
    if b == [] then false
    else if a == [] then true
    else if a[0] != b[0] then a[0] < b[0]
    else Before(a[1..], b[1..])
  }

  datatype Visit = Visit(address: seq<nat>, names: seq<string>, message: string)

  /** The nodes with constraints, with their addresses and names, in the order they are flattened. */
  function Walk(errors: seq<Node>, address: seq<nat>, names: seq<string>): seq<Visit>
    decreases errors
  {
    if errors == [] then []
    else
      var n := |errors| - 1;
      var node := errors[n];
      Walk(errors[..n], address, names)
      + (OwnVisit(node, address + [n], names + [node.property]) + Walk(node.children, address + [n], names + [node.property]))
  }

  function OwnVisit(node: Node, address: seq<nat>, names: seq<string>): seq<Visit> {
    if node.constraints != [] then [Visit(address, names, node.constraints[0])] else []
  }

  /** The printed path of a list of names. */
  function PathOf(names: seq<string>, numeric: string -> bool): string {
    if names == [] then ""
    else ChildPath(PathOf(names[..|names| - 1], numeric), names[|names| - 1], numeric)
  }

  function Printed(visits: seq<Visit>, numeric: string -> bool): seq<Entry> {
    seq(|visits|, i requires 0 <= i < |visits| => Entry(PathOf(visits[i].names, numeric), visits[i].message))
  }

  lemma PrintedConcat(a: seq<Visit>, b: seq<Visit>, numeric: string -> bool)
    ensures Printed(a + b, numeric) == Printed(a, numeric) + Printed(b, numeric)
  {
  }

  /** The flattened list is the walk, printed. */
  lemma {:induction false} FlattenPrintsWalk(errors: seq<Node>, address: seq<nat>, names: seq<string>, numeric: string -> bool)
    ensures Flatten(errors, PathOf(names, numeric), numeric) == Printed(Walk(errors, address, names), numeric)
    decreases errors
  {
    if errors != [] {
      var n := |errors| - 1;
      var node := errors[n];
      var here := names + [node.property];
      FlattenPrintsWalk(errors[..n], address, names, numeric);
      FlattenPrintsWalk(node.children, address + [n], here, numeric);
      PathOfOneMore(names, node.property, numeric);
      FlattenNext(errors, PathOf(names, numeric), numeric, n);
      assert errors[..n + 1] == errors;
      PrintedThree(Walk(errors[..n], address, names), node, address + [n], here, Walk(node.children, address + [n], here), numeric);
    }
  }

  lemma PrintedThree(first: seq<Visit>, node: Node, address: seq<nat>, names: seq<string>, below: seq<Visit>, numeric: string -> bool)
    ensures Printed(first + (OwnVisit(node, address, names) + below), numeric) ==
              Printed(first, numeric) + OwnEntry(node, PathOf(names, numeric)) + Printed(below, numeric)
  {
    PrintedConcat(first, OwnVisit(node, address, names) + below, numeric);
    PrintedConcat(OwnVisit(node, address, names), below, numeric);
    assert Printed(OwnVisit(node, address, names), numeric) == OwnEntry(node, PathOf(names, numeric));
  }

  lemma PathOfOneMore(names: seq<string>, name: string, numeric: string -> bool)
    ensures PathOf(names + [name], numeric) == ChildPath(PathOf(names, numeric), name, numeric)
  {
    assert (names + [name])[..|names|] == names;
  }

  /** Names are joined by dots, a numeric one put in brackets instead; an empty path takes the name as it is. */
  lemma PathJoins(names: seq<string>, name: string, numeric: string -> bool)
    ensures PathOf([name], numeric) == name
    ensures PathOf(names, numeric) != "" ==>
              PathOf(names + [name], numeric) ==
              if numeric(name) then PathOf(names, numeric) + "[" + name + "]" else PathOf(names, numeric) + "." + name
    ensures PathOf(names, numeric) == "" ==> PathOf(names + [name], numeric) == name
  {
    PathOfOneMore(names, name, numeric);
    PathOfOneMore([], name, numeric);
    assert [] + [name] == [name];
  }

  /** Every visit below an address extends it by a position of the list, and names alike. */
  lemma {:induction false} WalkBelow(errors: seq<Node>, address: seq<nat>, names: seq<string>, v: Visit)
    requires v in Walk(errors, address, names)
    ensures address < v.address && v.address[|address|] < |errors|
    ensures v.names == names + NamesTo(errors, v.address[|address|..])
    ensures NodeAt(errors, v.address[|address|..]).Some?
    ensures var node := NodeAt(errors, v.address[|address|..]).value;
            node.constraints != [] && v.message == node.constraints[0]
    decreases errors
  {
    var n := |errors| - 1;
    var node := errors[n];
    if v in Walk(errors[..n], address, names) {
      WalkBelow(errors[..n], address, names, v);
      var rest := v.address[|address|..];
      assert errors[..n][rest[0]] == errors[rest[0]];
    } else if v in Walk(node.children, address + [n], names + [node.property]) {
      WalkBelow(node.children, address + [n], names + [node.property], v);
      var rest := v.address[|address|..];
      assert rest[0] == n && rest[1..] == v.address[|address + [n]|..];
      assert |rest| > 1;
    } else {
      assert v.address[|address|..] == [n];
      assert NamesTo(node.children, []) == [];
    }
  }

  /** Every node with constraints is visited. */
  lemma {:induction false} WalkReaches(errors: seq<Node>, address: seq<nat>, names: seq<string>, rest: seq<nat>)
    requires NodeAt(errors, rest).Some? && NodeAt(errors, rest).value.constraints != []
    ensures Visit(address + rest, names + NamesTo(errors, rest), NodeAt(errors, rest).value.constraints[0])
            in Walk(errors, address, names)
    decreases errors, 0
  {
    var n := |errors| - 1;
    if rest[0] < n {
      assert NodeAt(errors[..n], rest) == NodeAt(errors, rest) && NamesTo(errors[..n], rest) == NamesTo(errors, rest) by {
        assert errors[..n][rest[0]] == errors[rest[0]];
      }
      WalkReaches(errors[..n], address, names, rest);
    } else if |rest| == 1 {
      assert rest == [n] && address + rest == address + [n];
      assert NamesTo(errors[n].children, rest[1..]) == [];
      assert names + NamesTo(errors, rest) == names + [errors[n].property];
    } else {
      WalkReaches(errors[n].children, address + [n], names + [errors[n].property], rest[1..]);
      assert address + [n] + rest[1..] == address + rest;
      assert names + [errors[n].property] + NamesTo(errors[n].children, rest[1..]) == names + NamesTo(errors, rest);
    }
  }

  lemma {:induction false} BeforeBelow(common: seq<nat>, a: seq<nat>, b: seq<nat>)
    ensures Before(common + a, common + b) == Before(a, b)
  {
    if common == [] {
      assert common + a == a && common + b == b;
    } else {
      BeforeBelow(common[1..], a, b);
      assert (common + a)[1..] == common[1..] + a && (common + b)[1..] == common[1..] + b;
    }
  }

  lemma BeforeByPosition(address: seq<nat>, a: seq<nat>, b: seq<nat>)
    requires address < a && address < b && a[|address|] < b[|address|]
    ensures Before(a, b)
  {
    var k := |address|;
    assert a == address + a[k..] && b == address + b[k..];
    BeforeBelow(address, a[k..], b[k..]);
  }

  ghost predicate Preorder(visits: seq<Visit>) {
    forall i, j | 0 <= i < j < |visits| :: Before(visits[i].address, visits[j].address)
  }

  /** The walk is in preorder, so it meets no node twice. */
  lemma {:induction false} WalkIsPreorder(errors: seq<Node>, address: seq<nat>, names: seq<string>)
    ensures Preorder(Walk(errors, address, names))
    decreases errors
  {
    if errors != [] {
      var n := |errors| - 1;
      var node := errors[n];
      var here := names + [node.property];
      var first := Walk(errors[..n], address, names);
      var own := OwnVisit(node, address + [n], here);
      var below := Walk(node.children, address + [n], here);
      WalkIsPreorder(errors[..n], address, names);
      WalkIsPreorder(node.children, address + [n], here);
      OwnFirst(node, address + [n], here, own, below);
      forall v: Visit, w: Visit | v in first && w in own + below ensures Before(v.address, w.address) {
        EarlierComesFirst(errors, address, names, v, w);
      }
      JoinsInOrder(first, own + below);
      assert Walk(errors, address, names) == first + (own + below);
    }
  }

  lemma EarlierComesFirst(errors: seq<Node>, address: seq<nat>, names: seq<string>, v: Visit, w: Visit)
    requires errors != [] && v in Walk(errors[..|errors| - 1], address, names)
    requires var n := |errors| - 1; var node := errors[n];
             || (node.constraints != [] && w == Visit(address + [n], names + [node.property], node.constraints[0]))
             || w in Walk(node.children, address + [n], names + [node.property])
    ensures Before(v.address, w.address)
  {
    OwnPart(errors, address, names, w);
    WalkBelow(errors[..|errors| - 1], address, names, v);
    BeforeByPosition(address, v.address, w.address);
  }

  lemma JoinsInOrder(a: seq<Visit>, b: seq<Visit>)
    requires Preorder(a) && Preorder(b)
    requires forall v, w | v in a && w in b :: Before(v.address, w.address)
    ensures Preorder(a + b)
  {
    forall i, j | 0 <= i < j < |a + b| ensures Before((a + b)[i].address, (a + b)[j].address) {
      if i < |a| <= j {
        assert a[i] in a && b[j - |a|] in b;
      }
    }
  }

  lemma OwnFirst(node: Node, address: seq<nat>, names: seq<string>, own: seq<Visit>, below: seq<Visit>)
    requires below == Walk(node.children, address, names) && Preorder(below)
    requires own == OwnVisit(node, address, names)
    ensures Preorder(own + below)
  {
    forall v, w | v in own && w in below ensures Before(v.address, w.address) {
      WalkBelow(node.children, address, names, w);
      assert address + [] == address && address + w.address[|address|..] == w.address;
      BeforeBelow(address, [], w.address[|address|..]);
    }
    JoinsInOrder(own, below);
  }

  /** A visit of the last node or of its subtree starts with that node's address. */
  lemma OwnPart(errors: seq<Node>, address: seq<nat>, names: seq<string>, v: Visit)
    requires errors != []
    requires var n := |errors| - 1; var node := errors[n];
             || (node.constraints != [] && v == Visit(address + [n], names + [node.property], node.constraints[0]))
             || v in Walk(node.children, address + [n], names + [node.property])
    ensures address < v.address && v.address[|address|] == |errors| - 1
  {
    var n := |errors| - 1;
    if v in Walk(errors[n].children, address + [n], names + [errors[n].property]) {
      WalkBelow(errors[n].children, address + [n], names + [errors[n].property], v);
    }
  }

  // ---------- printing is injective ----------

  predicate Clean(name: string) {
    '.' !in name && '[' !in name
  }

  predicate CleanNames(names: seq<string>) {
    && (forall i | 0 <= i < |names| :: Clean(names[i]))
    && (names != [] ==> names[0] != "")
  }

  predicate IsMark(c: char) {
    c == '.' || c == '['
  }

  lemma {:induction false} PathIsNotEmpty(names: seq<string>, numeric: string -> bool)
    requires names != [] && names[0] != ""
    ensures PathOf(names, numeric) != ""
  {
    if |names| > 1 {
      PathIsNotEmpty(names[..|names| - 1], numeric);
    }
  }

  /** Where the last name was attached: after the last mark. */
  lemma LastMark(names: seq<string>, numeric: string -> bool)
    requires |names| > 1 && CleanNames(names)
    ensures var p, q := PathOf(names, numeric), PathOf(names[..|names| - 1], numeric);
            && |q| < |p| && p[..|q|] == q && IsMark(p[|q|])
            && (forall i | |q| < i < |p| :: !IsMark(p[i]))
            && names[|names| - 1] == if p[|q|] == '[' then p[|q| + 1..|p| - 1] else p[|q| + 1..]
  {
    var q, last := PathOf(names[..|names| - 1], numeric), names[|names| - 1];
    PathIsNotEmpty(names[..|names| - 1], numeric);
    assert Clean(last);
    assert forall i | 0 <= i < |last| :: last[i] in last;
  }

  lemma SingleNameHasNoMark(names: seq<string>, numeric: string -> bool)
    requires |names| == 1 && CleanNames(names)
    ensures PathOf(names, numeric) == names[0]
    ensures forall i | 0 <= i < |PathOf(names, numeric)| :: !IsMark(PathOf(names, numeric)[i])
  {
  }

  /** Names free of '.' and '[', the first one not empty, can be read back from the printed path. */
  lemma {:induction false} PathIsInjective(a: seq<string>, b: seq<string>, numeric: string -> bool)
    requires a != [] && b != [] && CleanNames(a) && CleanNames(b)
    requires PathOf(a, numeric) == PathOf(b, numeric)
    ensures a == b
  {
    if |a| == 1 {
      SingleNameAlone(a, b, numeric);
    } else if |b| == 1 {
      SingleNameAlone(b, a, numeric);
    } else {
      SameLastName(a, b, numeric);
      PathIsInjective(a[..|a| - 1], b[..|b| - 1], numeric);
      assert a == a[..|a| - 1] + [a[|a| - 1]] && b == b[..|b| - 1] + [b[|b| - 1]];
    }
  }

  /** A single name prints without a mark, a longer list does not. */
  lemma SingleNameAlone(a: seq<string>, b: seq<string>, numeric: string -> bool)
    requires |a| == 1 && b != [] && CleanNames(a) && CleanNames(b)
    requires PathOf(a, numeric) == PathOf(b, numeric)
    ensures a == b
  {
    SingleNameHasNoMark(a, numeric);
    if |b| == 1 {
      SingleNameHasNoMark(b, numeric);
    } else {
      LastMark(b, numeric);
    }
  }

  lemma SameLastName(a: seq<string>, b: seq<string>, numeric: string -> bool)
    requires |a| > 1 && |b| > 1 && CleanNames(a) && CleanNames(b)
    requires PathOf(a, numeric) == PathOf(b, numeric)
    ensures PathOf(a[..|a| - 1], numeric) == PathOf(b[..|b| - 1], numeric)
    ensures a[|a| - 1] == b[|b| - 1]
  {
    LastMark(a, numeric);
    LastMark(b, numeric);
    SameMark(PathOf(a, numeric), |PathOf(a[..|a| - 1], numeric)|, |PathOf(b[..|b| - 1], numeric)|);
  }

  /** The last mark of a text stands at one place. */
  lemma SameMark(p: string, i: nat, j: nat)
    requires i < |p| && j < |p| && IsMark(p[i]) && IsMark(p[j])
    requires forall k | i < k < |p| :: !IsMark(p[k])
    requires forall k | j < k < |p| :: !IsMark(p[k])
    ensures i == j
  {
  }

  // ---------- the guarantee ----------

  /** Siblings have distinct clean names, everywhere in the tree. */
  ghost predicate WellNamed(errors: seq<Node>)
    decreases errors
  {
    && (forall i, j | 0 <= i < j < |errors| :: errors[i].property != errors[j].property)
    && (forall i | 0 <= i < |errors| :: Clean(errors[i].property) && WellNamed(errors[i].children))
  }

  lemma {:induction false} NamesDetermineAddress(errors: seq<Node>, a: seq<nat>, b: seq<nat>)
    requires WellNamed(errors) && NodeAt(errors, a).Some? && NodeAt(errors, b).Some?
    requires NamesTo(errors, a) == NamesTo(errors, b)
    ensures a == b
    decreases a
  {
    assert NamesTo(errors, a)[0] == errors[a[0]].property && NamesTo(errors, b)[0] == errors[b[0]].property;
    assert a[0] == b[0];
    assert NamesTo(errors, a)[1..] == NamesTo(errors[a[0]].children, a[1..]);
    assert NamesTo(errors, b)[1..] == NamesTo(errors[b[0]].children, b[1..]);
    if |a| == 1 || |b| == 1 {
      NamesLength(errors, a);
      NamesLength(errors, b);
    } else {
      NamesDetermineAddress(errors[a[0]].children, a[1..], b[1..]);
    }
    assert a == [a[0]] + a[1..] && b == [b[0]] + b[1..];
  }

  lemma {:induction false} NamesLength(errors: seq<Node>, a: seq<nat>)
    requires NodeAt(errors, a).Some?
    ensures |NamesTo(errors, a)| == |a|
    decreases a
  {
    if |a| > 1 {
      NamesLength(errors[a[0]].children, a[1..]);
    } else {
      assert a[1..] == [];
    }
  }

  lemma {:induction false} NamesAreClean(errors: seq<Node>, a: seq<nat>)
    requires WellNamed(errors) && NodeAt(errors, a).Some?
    ensures forall i | 0 <= i < |NamesTo(errors, a)| :: Clean(NamesTo(errors, a)[i])
    decreases a
  {
    if |a| > 1 {
      NamesAreClean(errors[a[0]].children, a[1..]);
    } else {
      assert a[1..] == [];
    }
  }

  lemma VisitedNode(errors: seq<Node>, v: Visit)
    requires v in Walk(errors, [], [])
    ensures NodeAt(errors, v.address).Some? && v.names == NamesTo(errors, v.address)
    ensures NodeAt(errors, v.address).value.constraints != [] && v.message == NodeAt(errors, v.address).value.constraints[0]
  {
    WalkBelow(errors, [], [], v);
    assert v.address[0..] == v.address && [] + NamesTo(errors, v.address) == NamesTo(errors, v.address);
  }

  /**
   The flattened list has one entry per node with constraints and no other, in preorder, each with
   the node's first message and the printed names on the way to it.
   */
  lemma OneEntryPerConstrainedNode(errors: seq<Node>, numeric: string -> bool)
    ensures var visits := Walk(errors, [], []);
            && Flatten(errors, "", numeric) == Printed(visits, numeric)
            && Preorder(visits)
            && (forall v | v in visits ::
                  && NodeAt(errors, v.address).Some? && v.names == NamesTo(errors, v.address)
                  && NodeAt(errors, v.address).value.constraints != []
                  && v.message == NodeAt(errors, v.address).value.constraints[0])
            && (forall a | NodeAt(errors, a).Some? && NodeAt(errors, a).value.constraints != [] ::
                  Visit(a, NamesTo(errors, a), NodeAt(errors, a).value.constraints[0]) in visits)
  {
    var visits := Walk(errors, [], []);
    FlattenPrintsWalk(errors, [], [], numeric);
    WalkIsPreorder(errors, [], []);
    forall v | v in visits
      ensures NodeAt(errors, v.address).Some? && v.names == NamesTo(errors, v.address)
      ensures NodeAt(errors, v.address).value.constraints != [] && v.message == NodeAt(errors, v.address).value.constraints[0]
    {
      VisitedNode(errors, v);
    }
    forall a | NodeAt(errors, a).Some? && NodeAt(errors, a).value.constraints != []
      ensures Visit(a, NamesTo(errors, a), NodeAt(errors, a).value.constraints[0]) in visits
    {
      WalkReaches(errors, [], [], a);
      assert [] + a == a && [] + NamesTo(errors, a) == NamesTo(errors, a);
    }
  }

  lemma {:induction false} BeforeIsStrict(a: seq<nat>)
    ensures !Before(a, a)
  {
    if a != [] { BeforeIsStrict(a[1..]); }
  }

  /** When siblings have distinct names free of '.' and '[', and no root name is empty, no field repeats. */
  lemma FieldsAreDistinct(errors: seq<Node>, numeric: string -> bool)
    requires WellNamed(errors)
    requires forall i | 0 <= i < |errors| :: errors[i].property != ""
    ensures var result := Flatten(errors, "", numeric);
            forall i, j | 0 <= i < j < |result| :: result[i].field != result[j].field
  {
    var visits := Walk(errors, [], []);
    var result := Flatten(errors, "", numeric);
    OneEntryPerConstrainedNode(errors, numeric);
    forall i, j | 0 <= i < j < |result| ensures result[i].field != result[j].field {
      var a, b := visits[i], visits[j];
      assert a in visits && b in visits;
      NamesAreClean(errors, a.address);
      NamesAreClean(errors, b.address);
      BeforeIsStrict(a.address);
      if result[i].field == result[j].field {
        PathIsInjective(a.names, b.names, numeric);
        NamesDetermineAddress(errors, a.address, b.address);
      }
    }
  }

  /** Without those conditions two nodes can print the same field. */
  lemma DotInNameCollides(numeric: string -> bool)
    requires !numeric("b")
    ensures var errors := [Node("a.b", ["x"], []), Node("a", [], [Node("b", ["y"], [])])];
            Flatten(errors, "", numeric) == [Entry("a.b", "x"), Entry("a.b", "y")]
  {
    var inner := [Node("b", ["y"], [])];
    var errors := [Node("a.b", ["x"], []), Node("a", [], inner)];
    assert errors[..1] == [Node("a.b", ["x"], [])] && errors[..1][..0] == [] && inner[..0] == [];
    assert ChildPath("a", "b", numeric) == "a.b";
    assert Flatten(inner, "a", numeric) == [Entry("a.b", "y")];
    assert Flatten(errors[..1], "", numeric) == [Entry("a.b", "x")];
  }

  lemma EmptyRootCollides(numeric: string -> bool)
    ensures var errors := [Node("", [], [Node("a", ["x"], [])]), Node("a", ["y"], [])];
            Flatten(errors, "", numeric) == [Entry("a", "x"), Entry("a", "y")]
  {
  }
}

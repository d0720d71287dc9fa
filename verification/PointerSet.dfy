/** Setting a value at a JSON Pointer in place: the maps and slices of the tree are updated where
    they are (setJSONPointerValue and DeepCopyValue in resource/jsonpointer.go). */
module PointerSet {
  import opened Payload
  import opened JsonPointer

  /** A Go map. */
  class Table {
    var fields: map<string, Ref>

    constructor (fields: map<string, Ref>)
      ensures this.fields == fields
    {
      this.fields := fields;
    }
  }

  /** A payload as Go holds it: a scalar, or a reference to a map or to the elements of a slice. */
  datatype Ref = Scalar(v: Value) | MapRef(table: Table) | SliceRef(items: array<Ref>)

  /** Which container sits where in a tree. */
  datatype Layout =
    | Leaf(v: Value)
    | MapAt(table: Table, fields: map<string, Layout>)
    | SliceAt(items: array<Ref>, elements: seq<Layout>)

  function RefOf(l: Layout): Ref {
    match l
    case Leaf(v) => Scalar(v)
    case MapAt(table, _) => MapRef(table)
    case SliceAt(items, _) => SliceRef(items)
  }

  /** The payload that the tree stands for. */
  ghost function ValueOf(l: Layout): Value {
    match l
    case Leaf(v) => v
    case MapAt(_, fields) => Obj(map k | k in fields :: ValueOf(fields[k]))
    case SliceAt(_, elements) => Arr(seq(|elements|, i requires 0 <= i < |elements| => ValueOf(elements[i])))
  }

  /** The containers of the tree. */
  ghost function Region(l: Layout): set<object> {
    match l
    case Leaf(_) => {}
    case MapAt(table, fields) => {table} + FieldRegion(l)
    case SliceAt(items, elements) => {items} + ElementRegion(l)
  }

  ghost function FieldRegion(l: Layout): set<object>
    requires l.MapAt?
    decreases l, 0
  {
    set k, o: object | k in l.fields.Keys && o in Region(l.fields[k]) :: o
  }

  ghost function ElementRegion(l: Layout): set<object>
    requires l.SliceAt?
    decreases l, 0
  {
    set i, o: object | 0 <= i < |l.elements| && o in Region(l.elements[i]) :: o
  }

  lemma FieldInside(l: Layout, k: string)
    requires l.MapAt? && k in l.fields
    ensures Region(l.fields[k]) <= FieldRegion(l) <= Region(l)
  {
    forall o | o in Region(l.fields[k])
      ensures o in FieldRegion(l)
    {
      assert k in l.fields.Keys;
    }
  }

  lemma ElementInside(l: Layout, i: nat)
    requires l.SliceAt? && i < |l.elements|
    ensures Region(l.elements[i]) <= ElementRegion(l) <= Region(l)
  {
  }

  /** No container occurs twice in the tree. */
  ghost predicate Tree(l: Layout) {
    match l
    case Leaf(v) => !v.Obj? && !v.Arr?
    case MapAt(table, fields) =>
      table !in FieldRegion(l) &&
      (forall k :: k in fields ==> Tree(fields[k])) &&
      forall j, k :: j in fields && k in fields && j != k ==> Region(fields[j]) !! Region(fields[k])
    case SliceAt(items, elements) =>
      items !in ElementRegion(l) &&
      (forall i :: 0 <= i < |elements| ==> Tree(elements[i])) &&
      forall i, j :: 0 <= i < j < |elements| ==> Region(elements[i]) !! Region(elements[j])
  }

  /** The containers hold what the layout says. */
  ghost predicate Laid(l: Layout)
    reads Region(l)
    decreases l
  {
    match l
    case Leaf(_) => true
    case MapAt(table, fields) =>
      table.fields == (map k | k in fields :: RefOf(fields[k])) &&
      forall k :: k in fields ==> (FieldInside(l, k); Laid(fields[k]))
    case SliceAt(items, elements) =>
      items[..] == seq(|elements|, i requires 0 <= i < |elements| => RefOf(elements[i])) &&
      forall i :: 0 <= i < |elements| ==> (ElementInside(l, i); Laid(elements[i]))
  }

  /** Only scalars sit outside the containers. */
  ghost predicate Plain(l: Layout) {
    match l
    case Leaf(v) => !v.Obj? && !v.Arr?
    case MapAt(_, fields) => forall k :: k in fields ==> Plain(fields[k])
    case SliceAt(_, elements) => forall i :: 0 <= i < |elements| ==> Plain(elements[i])
  }

  /** DeepCopyValue: every container is new, and nothing that was there before changes. */
  method DeepCopyValue(r: Ref, ghost l: Layout) returns (copy: Ref, ghost after: Layout)
    requires Laid(l) && Plain(l) && RefOf(l) == r && allocated(Region(l))
    ensures Laid(after) && Tree(after) && RefOf(after) == copy
    ensures ValueOf(after) == ValueOf(l) && fresh(Region(after)) && allocated(Region(after))
    decreases l, 1
  {
    match r {
      case MapRef(table) => copy, after := CopyTable(table, l.fields, l);
      case SliceRef(items) => copy, after := CopySlice(items, l.elements, l);
      case Scalar(v) => copy, after := r, l;
    }
  }

  method CopyTable(table: Table, ghost fields: map<string, Layout>, ghost l: Layout) returns (copy: Ref, ghost after: Layout)
    requires l == MapAt(table, fields) && Laid(l) && Plain(l) && allocated(Region(l))
    ensures Laid(after) && Tree(after) && RefOf(after) == copy
    ensures ValueOf(after) == ValueOf(l) && fresh(Region(after)) && allocated(Region(after))
    decreases l, 0
  {
    hide ValueOf, Tree, Laid, Region, FieldRegion, Plain;
    var copied: map<string, Ref> := map[];
    ghost var kids: map<string, Layout> := map[];
    TableKeys(l);
    var keys := table.fields.Keys;
    while keys != {}
      invariant Laid(l) && keys <= fields.Keys && copied.Keys == kids.Keys == fields.Keys - keys
      invariant forall k :: k in kids ==> Copied(copied[k], kids[k], fields[k]) && fresh(Region(kids[k])) && allocated(Region(kids[k]))
      invariant forall j, k :: j in kids && k in kids && j != k ==> Region(kids[j]) !! Region(kids[k])
    {
      var key :| key in keys;
      FieldInside(l, key);
      LaidField(l, key);
      var c, kid := DeepCopyValue(table.fields[key], fields[key]);
      copied, kids, keys := copied[key := c], kids[key := kid], keys - {key};
    }
    var t := new Table(copied);
    copy, after := MapRef(t), MapAt(t, kids);
    CopiedTable(l, after);
    TableLaid(after);
    TableRegion(after);
  }

  lemma TableKeys(l: Layout)
    requires l.MapAt? && Laid(l)
    ensures l.table.fields.Keys == l.fields.Keys
  {
  }

  lemma SliceLength(l: Layout)
    requires l.SliceAt? && Laid(l)
    ensures l.items.Length == |l.elements|
  {
    assert |l.items[..]| == l.items.Length;
  }

  lemma LaidField(l: Layout, k: string)
    requires l.MapAt? && Laid(l) && k in l.fields
    ensures k in l.table.fields && l.table.fields[k] == RefOf(l.fields[k]) && Laid(l.fields[k])
    ensures Plain(l) ==> Plain(l.fields[k])
  {
  }

  lemma LaidElement(l: Layout, i: nat)
    requires l.SliceAt? && Laid(l) && i < |l.elements|
    ensures i < l.items.Length && l.items[i] == RefOf(l.elements[i]) && Laid(l.elements[i])
    ensures Plain(l) ==> Plain(l.elements[i])
  {
    SliceLength(l);
    assert l.items[..][i] == l.items[i];
  }

  lemma TableRegion(l: Layout)
    requires l.MapAt?
    ensures forall o :: o in Region(l) <==> o == l.table || exists k :: k in l.fields && o in Region(l.fields[k])
  {
  }

  lemma SliceRegion(l: Layout)
    requires l.SliceAt?
    ensures forall o :: o in Region(l) <==> o == l.items || exists i :: 0 <= i < |l.elements| && o in Region(l.elements[i])
  {
  }

  lemma TableLaid(l: Layout)
    requires l.MapAt? && l.table.fields.Keys == l.fields.Keys
    requires forall k :: k in l.fields ==>
               l.table.fields[k] == RefOf(l.fields[k]) && Laid(l.fields[k]) && Tree(l.fields[k]) && l.table !in Region(l.fields[k])
    requires forall j, k :: j in l.fields && k in l.fields && j != k ==> Region(l.fields[j]) !! Region(l.fields[k])
    ensures Laid(l) && Tree(l)
  {
    hide ValueOf;
    assert l.table.fields == map k | k in l.fields :: RefOf(l.fields[k]);
  }

  lemma SliceLaid(l: Layout)
    requires l.SliceAt? && l.items.Length == |l.elements|
    requires forall i :: 0 <= i < |l.elements| ==>
               l.items[i] == RefOf(l.elements[i]) && Laid(l.elements[i]) && Tree(l.elements[i]) && l.items !in Region(l.elements[i])
    requires forall i, j :: 0 <= i < j < |l.elements| ==> Region(l.elements[i]) !! Region(l.elements[j])
    ensures Laid(l) && Tree(l)
  {
    hide ValueOf;
  }

  /** r and its layout stand for the same payload as the layout from. */
  ghost predicate Copied(r: Ref, l: Layout, from: Layout)
    reads Region(l)
  {
    r == RefOf(l) && Laid(l) && Tree(l) && ValueOf(l) == ValueOf(from)
  }

  lemma CopiedTable(l: Layout, after: Layout)
    requires l.MapAt? && after.MapAt? && l.fields.Keys == after.fields.Keys
    requires forall k :: k in l.fields ==> ValueOf(after.fields[k]) == ValueOf(l.fields[k])
    ensures ValueOf(after) == ValueOf(l)
  {
  }

  method CopySlice(items: array<Ref>, ghost elements: seq<Layout>, ghost l: Layout) returns (copy: Ref, ghost after: Layout)
    requires l == SliceAt(items, elements) && Laid(l) && Plain(l) && allocated(Region(l))
    ensures Laid(after) && Tree(after) && RefOf(after) == copy
    ensures ValueOf(after) == ValueOf(l) && fresh(Region(after)) && allocated(Region(after))
    decreases l, 0
  {
    hide ValueOf, Tree, Laid, Region, ElementRegion, Plain;
    var copied := new Ref[items.Length](_ => Scalar(Null));
    ghost var kids: seq<Layout> := [];
    SliceLength(l);
    for i := 0 to items.Length
      invariant |kids| == i && Laid(l)
      invariant forall j :: 0 <= j < i ==>
                  Copied(copied[j], kids[j], elements[j]) && fresh(Region(kids[j])) && allocated(Region(kids[j])) && copied !in Region(kids[j])
      invariant forall j, k :: 0 <= j < k < i ==> Region(kids[j]) !! Region(kids[k])
    {
      ElementInside(l, i);
      LaidElement(l, i);
      var c, kid := DeepCopyValue(items[i], elements[i]);
      copied[i] := c;
      kids := kids + [kid];
    }
    copy, after := SliceRef(copied), SliceAt(copied, kids);
    CopiedSlice(l, after);
    SliceLaid(after);
    SliceRegion(after);
  }

  lemma CopiedSlice(l: Layout, after: Layout)
    requires l.SliceAt? && after.SliceAt? && |l.elements| == |after.elements|
    requires forall i :: 0 <= i < |l.elements| ==> ValueOf(after.elements[i]) == ValueOf(l.elements[i])
    ensures ValueOf(after) == ValueOf(l)
  {
  }

  // ----- set -----

  lemma TreeElement(l: Layout, i: nat)
    requires l.SliceAt? && Tree(l) && i < |l.elements|
    ensures Tree(l.elements[i]) && l.items !in Region(l.elements[i])
    ensures forall j :: 0 <= j < |l.elements| && j != i ==> Region(l.elements[j]) !! Region(l.elements[i])
  {
    ElementInside(l, i);
  }

  lemma TreeField(l: Layout, k: string)
    requires l.MapAt? && Tree(l) && k in l.fields
    ensures Tree(l.fields[k]) && l.table !in Region(l.fields[k])
    ensures forall j :: j in l.fields && j != k ==> Region(l.fields[j]) !! Region(l.fields[k])
  {
    FieldInside(l, k);
  }

  ghost function Nils(n: nat): (r: seq<Layout>)
    ensures |r| == n && forall i :: 0 <= i < n ==> r[i] == Leaf(Null)
  {
    seq(n, _ => Leaf(Null))
  }

  /** The elements of a slice, or of nil, as long as the index asks for. */
  method Grow(root: Ref, ghost tree: Layout, index: nat) returns (items: array<Ref>, ghost here: Layout)
    requires Laid(tree) && Tree(tree) && RefOf(tree) == root && allocated(Region(tree))
    requires root == Scalar(Null) || root.SliceRef?
    ensures here.SliceAt? && here.items == items && index < items.Length == |here.elements|
    ensures Laid(here) && Tree(here) && allocated(Region(here))
    ensures var v := ValueOf(tree); ValueOf(here) == Arr(Grown(if v.Arr? then v.items else [], index))
    ensures forall o :: o in Region(here) ==> o in Region(tree) || fresh(o)
  {
    ghost var elements := if tree.SliceAt? then tree.elements else [];
    var length := if root.SliceRef? then root.items.Length else 0;
    if tree.SliceAt? {
      SliceLength(tree);
    }
    if index < length {
      return root.items, tree;
    }
    hide Laid, Tree, Region, ElementRegion;
    items := new Ref[index + 1](_ => Scalar(Null));
    ghost var kids := elements + Nils(index + 1 - |elements|);
    for i := 0 to length
      invariant Laid(tree) && items !in Region(tree)
      invariant forall j :: 0 <= j < i ==> items[j] == RefOf(elements[j])
      invariant forall j :: i <= j <= index ==> items[j] == Scalar(Null)
    {
      LaidElement(tree, i);
      items[i] := root.items[i];
    }
    here := SliceAt(items, kids);
    NilFacts();
    forall i | 0 <= i < |kids|
      ensures Laid(kids[i]) && Tree(kids[i]) && items[i] == RefOf(kids[i])
      ensures Region(kids[i]) <= Region(tree)
      ensures forall j :: i < j < |kids| ==> Region(kids[i]) !! Region(kids[j])
    {
      if i < |elements| {
        LaidElement(tree, i);
        TreeElement(tree, i);
        ElementInside(tree, i);
      }
    }
    SliceLaid(here);
    SliceRegion(here);
    GrownValue(tree, here, index);
  }

  lemma NilFacts()
    ensures Laid(Leaf(Null)) && Tree(Leaf(Null)) && Region(Leaf(Null)) == {}
  {
  }

  lemma GrownValue(tree: Layout, here: Layout, index: nat)
    requires tree.SliceAt? || RefOf(tree) == Scalar(Null)
    requires var elements := if tree.SliceAt? then tree.elements else [];
             |elements| <= index && here.SliceAt? && here.elements == elements + Nils(index + 1 - |elements|)
    ensures var v := ValueOf(tree); ValueOf(here) == Arr(Grown(if v.Arr? then v.items else [], index))
  {
    var v := ValueOf(tree);
    var old_items := if v.Arr? then v.items else [];
    assert ValueOf(here).items == Grown(old_items, index);
  }

  /** setJSONPointerValue. The tree ends up as the payload-level Set says; a refusal leaves every
      container of the tree as it was. The new value may share containers with the tree. */
  method SetValue(root: Ref, ghost tree: Layout, tokens: seq<string>, value: Ref, ghost source: Layout)
    returns (ok: bool, next: Ref, ghost after: Layout)
    requires Laid(tree) && Tree(tree) && RefOf(tree) == root && allocated(Region(tree))
    requires Laid(source) && Plain(source) && RefOf(source) == value && allocated(Region(source))
    modifies Region(tree)
    ensures ok <==> Set(ValueOf(tree), tokens, ValueOf(source)).Some?
    ensures !ok ==> unchanged(Region(tree))
    ensures ok ==> Laid(after) && Tree(after) && RefOf(after) == next && allocated(Region(after))
    ensures ok ==> ValueOf(after) == Set(ValueOf(tree), tokens, ValueOf(source)).value
    ensures ok ==> forall o :: o in Region(after) ==> o in Region(tree) || fresh(o)
    decreases |tokens|, 1
  {
    hide Laid, Tree, Region, Plain;
    if |tokens| == 0 {
      next, after := DeepCopyValue(value, source);
      return true, next, after;
    }
    var index := ParseIndex(tokens[0]);
    RootKinds(tree);
    if index.Some? {
      if root != Scalar(Null) && !root.SliceRef? {
        return false, root, tree;
      }
      var items;
      ghost var here;
      items, here := Grow(root, tree, index.value);
      ok, after := SetElement(items, here, tokens, index.value, value, source);
      next := SliceRef(items);
    } else {
      if root != Scalar(Null) && !root.MapRef? {
        return false, root, tree;
      }
      var table;
      ghost var here := tree;
      if root.MapRef? {
        table := root.table;
      } else {
        table := new Table(map[]);
        here := MapAt(table, map[]);
        EmptyTable(here);
      }
      ok, after := SetField(table, here, tokens, value, source);
      next := MapRef(table);
    }
  }

  lemma EmptyTable(here: Layout)
    requires here.MapAt? && here.fields == map[] && here.table.fields == map[]
    ensures Laid(here) && Tree(here) && Region(here) == {here.table} && ValueOf(here) == Obj(map[])
  {
  }

  lemma RootKinds(tree: Layout)
    requires Tree(tree)
    ensures ValueOf(tree).Null? <==> RefOf(tree) == Scalar(Null)
    ensures ValueOf(tree).Arr? <==> tree.SliceAt?
    ensures ValueOf(tree).Obj? <==> tree.MapAt?
  {
  }

  method SetElement(items: array<Ref>, ghost here: Layout, tokens: seq<string>, index: nat, value: Ref, ghost source: Layout)
    returns (ok: bool, ghost after: Layout)
    requires here.SliceAt? && here.items == items && index < items.Length == |here.elements|
    requires Laid(here) && Tree(here) && allocated(Region(here))
    requires Laid(source) && Plain(source) && RefOf(source) == value && allocated(Region(source))
    requires tokens != []
    modifies Region(here)
    ensures ok <==> Set(ValueOf(here.elements[index]), tokens[1..], ValueOf(source)).Some?
    ensures !ok ==> unchanged(Region(here))
    ensures ok ==> Laid(after) && Tree(after) && RefOf(after) == SliceRef(items) && allocated(Region(after))
    ensures ok ==> ValueOf(after) ==
                     Arr(ValueOf(here).items[index := Set(ValueOf(here.elements[index]), tokens[1..], ValueOf(source)).value])
    ensures ok ==> forall o :: o in Region(after) ==> o in Region(here) || fresh(o)
    decreases |tokens|, 0
  {
    hide Laid, Tree, Region, Plain, ElementRegion, Set, ValueOf;
    forall j | 0 <= j < |here.elements|
      ensures Laid(here.elements[j]) && Tree(here.elements[j]) && items !in Region(here.elements[j])
      ensures items[j] == RefOf(here.elements[j]) && Region(here.elements[j]) <= Region(here)
      ensures forall k :: j < k < |here.elements| ==> Region(here.elements[j]) !! Region(here.elements[k])
    {
      LaidElement(here, j);
      TreeElement(here, j);
      ElementInside(here, j);
    }
    SliceRegion(here);
    var next;
    ghost var kid;
    ok, next, kid := SetValue(items[index], here.elements[index], tokens[1..], value, source);
    if !ok {
      return false, here;
    }
    ghost var kids := here.elements[index := kid];
    assert items !in Region(kid);
    assert forall j :: 0 <= j < |kids| && j != index ==> Region(kids[j]) !! Region(kid);
    assert forall j :: 0 <= j < |kids| ==> Laid(kids[j]);
    items[index] := next;
    assert forall j :: 0 <= j < |kids| ==> Laid(kids[j]);
    after := SliceAt(items, kids);
    SliceLaid(after);
    SliceRegion(after);
    ElementReplaced(here, after, index);
  }

  lemma ElementReplaced(here: Layout, after: Layout, index: nat)
    requires here.SliceAt? && after.SliceAt? && index < |here.elements| == |after.elements|
    requires after.elements == here.elements[index := after.elements[index]]
    ensures ValueOf(after) == Arr(ValueOf(here).items[index := ValueOf(after.elements[index])])
  {
  }

  lemma FieldReplaced(here: Layout, after: Layout, key: string)
    requires here.MapAt? && after.MapAt? && key in after.fields
    requires after.fields == here.fields[key := after.fields[key]]
    ensures ValueOf(after) == Obj(ValueOf(here).fields[key := ValueOf(after.fields[key])])
  {
  }

  method SetField(table: Table, ghost here: Layout, tokens: seq<string>, value: Ref, ghost source: Layout)
    returns (ok: bool, ghost after: Layout)
    requires here.MapAt? && here.table == table && tokens != []
    requires Laid(here) && Tree(here) && allocated(Region(here))
    requires Laid(source) && Plain(source) && RefOf(source) == value && allocated(Region(source))
    modifies Region(here)
    ensures var child := if tokens[0] in here.fields then ValueOf(here.fields[tokens[0]]) else Null;
            var stored := Set(child, tokens[1..], ValueOf(source));
            (ok <==> stored.Some?) &&
            (ok ==> ValueOf(after) == Obj(ValueOf(here).fields[tokens[0] := stored.value]))
    ensures !ok ==> unchanged(Region(here))
    ensures ok ==> Laid(after) && Tree(after) && RefOf(after) == MapRef(table) && allocated(Region(after))
    ensures ok ==> forall o :: o in Region(after) ==> o in Region(here) || fresh(o)
    decreases |tokens|, 0
  {
    hide Laid, Tree, Region, Plain, FieldRegion, Set, ValueOf;
    TableKeys(here);
    forall j | j in here.fields
      ensures Laid(here.fields[j]) && Tree(here.fields[j]) && table !in Region(here.fields[j])
      ensures table.fields[j] == RefOf(here.fields[j]) && Region(here.fields[j]) <= Region(here)
      ensures forall k :: k in here.fields && j != k ==> Region(here.fields[k]) !! Region(here.fields[j])
    {
      LaidField(here, j);
      TreeField(here, j);
      FieldInside(here, j);
    }
    TableRegion(here);
    NilFacts();
    var key := tokens[0];
    ghost var child := if key in here.fields then here.fields[key] else Leaf(Null);
    NilValue();
    var current := if key in table.fields then table.fields[key] else Scalar(Null);
    var next;
    ghost var kid;
    ok, next, kid := SetValue(current, child, tokens[1..], value, source);
    if !ok {
      return false, here;
    }
    ghost var kids := here.fields[key := kid];
    assert table !in Region(kid);
    assert forall j :: j in kids && j != key ==> Region(kids[j]) !! Region(kid);
    assert forall j :: j in kids ==> Laid(kids[j]);
    table.fields := table.fields[key := next];
    assert forall j :: j in kids ==> Laid(kids[j]);
    after := MapAt(table, kids);
    TableLaid(after);
    TableRegion(after);
    FieldReplaced(here, after, key);
  }

  lemma NilValue()
    ensures ValueOf(Leaf(Null)) == Null && RefOf(Leaf(Null)) == Scalar(Null)
  {
  }

  /** SetJSONPointerValue: afterwards the pointer resolves to the value, and every pointer that
      resolved before and diverges from it resolves to what it did; or the tree is untouched, and
      then the pointer is malformed or blocked by a container of the wrong kind. */
  method SetJSONPointerValue(root: Ref, ghost tree: Layout, pointer: string, value: Ref, ghost source: Layout)
    returns (ok: bool, next: Ref, ghost after: Layout)
    requires Laid(tree) && Tree(tree) && RefOf(tree) == root && allocated(Region(tree))
    requires Laid(source) && Plain(source) && RefOf(source) == value && allocated(Region(source))
    modifies Region(tree)
    ensures !ok <==> Parse(pointer).None? || Blocked(ValueOf(tree), Parse(pointer).value)
    ensures !ok ==> unchanged(Region(tree))
    ensures ok ==> Laid(after) && Tree(after) && RefOf(after) == next
    ensures ok ==> Lookup(ValueOf(after), Parse(pointer).value) == Some(ValueOf(source))
    ensures ok ==> forall q :: Diverge(Parse(pointer).value, q) && Lookup(ValueOf(tree), q).Some? ==>
                     Lookup(ValueOf(after), q) == Lookup(ValueOf(tree), q)
  {
    hide Laid, Tree, Region, Plain, Parse, Lookup, Set, Diverge, Blocked;
    var tokens := Parse(pointer);
    if tokens.None? {
      return false, root, tree;
    }
    SetFailsIffBlocked(ValueOf(tree), tokens.value, ValueOf(source));
    ok, next, after := SetValue(root, tree, tokens.value, value, source);
    if ok {
      LookupAfterSet(ValueOf(tree), tokens.value, ValueOf(source));
      forall q | Diverge(tokens.value, q) && Lookup(ValueOf(tree), q).Some?
        ensures Lookup(ValueOf(after), q) == Lookup(ValueOf(tree), q)
      {
        SetKeepsOthers(ValueOf(tree), tokens.value, ValueOf(source), q);
      }
    }
  }
}

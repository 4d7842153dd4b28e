/** The tool input schemas of host/src/services/mcp.ts: component references are collected to a closure and
    rewritten to point into the tool's own `$defs`. */
module McpSchema {
  import opened Collections
  import opened Wrappers

  /** A JSON value; `Atom` stands for numbers, booleans and null. */
  datatype Json = Str(text: string) | Atom(literal: string) | Arr(items: seq<Json>) | Obj(fields: seq<Field>)

  datatype Field = Field(key: string, value: Json)

  const COMPONENTS: string := "#/components/schemas/"
  const DEFS: string := "#/$defs/"

  // ---------------------------------------------------------------- references

  predicate Points(prefix: string, f: Field) {
    f.key == "$ref" && f.value.Str? && prefix <= f.value.text
  }

  function Target(prefix: string, f: Field): string
    requires Points(prefix, f)
  {
    f.value.text[|prefix|..]
  }

  /** The names that `$ref` keys reach with this prefix, anywhere in a value. */
  function Refs(prefix: string, v: Json): set<string>
    decreases v, 0
  {
    match v
    case Str(_) => {}
    case Atom(_) => {}
    case Arr(items) => RefsOfItems(prefix, items)
    case Obj(fields) => RefsOfFields(prefix, fields)
  }

  function RefsOfItems(prefix: string, items: seq<Json>): set<string>
    decreases items, 0
  {
    if items == [] then {} else Refs(prefix, items[0]) + RefsOfItems(prefix, items[1..])
  }

  function RefsOfField(prefix: string, f: Field): set<string>
    decreases f, 0
  {
    if Points(prefix, f) then {Target(prefix, f)} else Refs(prefix, f.value)
  }

  function RefsOfFields(prefix: string, fields: seq<Field>): set<string>
    decreases fields, 0
  {
    if fields == [] then {} else RefsOfField(prefix, fields[0]) + RefsOfFields(prefix, fields[1..])
  }

  /** `rewriteComponentRefs` */
  function Rewrite(v: Json): Json
    decreases v, 0
  {
    match v
    case Str(_) => v
    case Atom(_) => v
    case Arr(items) => Arr(RewriteItems(items))
    case Obj(fields) => Obj(RewriteFields(fields))
  }

  function RewriteItems(items: seq<Json>): seq<Json>
    decreases items, 0
  {
    if items == [] then [] else [Rewrite(items[0])] + RewriteItems(items[1..])
  }

  function RewriteField(f: Field): Field
    decreases f, 0
  {
    if Points(COMPONENTS, f) then Field(f.key, Str(DEFS + Target(COMPONENTS, f))) else Field(f.key, Rewrite(f.value))
  }

  function RewriteFields(fields: seq<Field>): seq<Field>
    decreases fields, 0
  {
    if fields == [] then [] else [RewriteField(fields[0])] + RewriteFields(fields[1..])
  }

  // ---------------------------------------------------------------- what rewriting does to references

  lemma PrefixesApart(s: string)
    ensures !(COMPONENTS <= DEFS + s)
    ensures DEFS <= DEFS + s && (DEFS + s)[|DEFS|..] == s
    ensures !(COMPONENTS <= s && DEFS <= s)
  {
    assert COMPONENTS[2] == 'c' && DEFS[2] == '$';
  }

  /** No component reference is left, and the references into `$defs` are the old ones and the rewritten. */
  lemma {:induction false} RewriteRedirects(v: Json)
    ensures Refs(COMPONENTS, Rewrite(v)) == {}
    ensures Refs(DEFS, Rewrite(v)) == Refs(DEFS, v) + Refs(COMPONENTS, v)
    decreases v, 0
  {
    match v
    case Str(_) =>
    case Atom(_) =>
    case Arr(items) => RewriteRedirectsItems(items);
    case Obj(fields) => RewriteRedirectsFields(fields);
  }

  lemma {:induction false} RewriteRedirectsItems(items: seq<Json>)
    ensures RefsOfItems(COMPONENTS, RewriteItems(items)) == {}
    ensures RefsOfItems(DEFS, RewriteItems(items)) == RefsOfItems(DEFS, items) + RefsOfItems(COMPONENTS, items)
    decreases items, 0
  {
    if items != [] {
      RewriteRedirects(items[0]);
      RewriteRedirectsItems(items[1..]);
      assert RewriteItems(items)[1..] == RewriteItems(items[1..]);
    }
  }

  lemma {:induction false} RewriteRedirectsField(f: Field)
    ensures RefsOfField(COMPONENTS, RewriteField(f)) == {}
    ensures RefsOfField(DEFS, RewriteField(f)) == RefsOfField(DEFS, f) + RefsOfField(COMPONENTS, f)
    decreases f, 0
  {
    if Points(COMPONENTS, f) {
      PrefixesApart(Target(COMPONENTS, f));
      PrefixesApart(f.value.text);
    } else {
      RewriteRedirects(f.value);
    }
  }

  lemma {:induction false} RewriteRedirectsFields(fields: seq<Field>)
    ensures RefsOfFields(COMPONENTS, RewriteFields(fields)) == {}
    ensures RefsOfFields(DEFS, RewriteFields(fields)) == RefsOfFields(DEFS, fields) + RefsOfFields(COMPONENTS, fields)
    decreases fields, 0
  {
    if fields != [] {
      RewriteRedirectsField(fields[0]);
      RewriteRedirectsFields(fields[1..]);
      assert RewriteFields(fields)[1..] == RewriteFields(fields[1..]);
    }
  }

  // ---------------------------------------------------------------- collecting

  function Names(s: seq<string>): set<string> {
    set i | 0 <= i < |s| :: s[i]
  }

  /** `set.add`: a set remembers the order of insertion. */
  method Add(names: seq<string>, name: string) returns (r: seq<string>)
    requires NoDuplicates(names)
    ensures NoDuplicates(r) && names <= r && Names(r) == Names(names) + {name}
  {
    if name in names { return names; }
    r := names + [name];
    assert forall i | 0 <= i < |names| :: r[i] == names[i];
    assert r[|names|] == name;
  }

  /** `collectComponentRefs` */
  method Collect(v: Json, names: seq<string>) returns (r: seq<string>)
    requires NoDuplicates(names)
    ensures NoDuplicates(r) && names <= r && Names(r) == Names(names) + Refs(COMPONENTS, v)
    decreases v, 0
  {
    match v
    case Str(_) => r := names;
    case Atom(_) => r := names;
    case Arr(items) => r := CollectItems(items, names);
    case Obj(fields) => r := CollectFields(fields, names);
  }

  method CollectItems(items: seq<Json>, names: seq<string>) returns (r: seq<string>)
    requires NoDuplicates(names)
    ensures NoDuplicates(r) && names <= r && Names(r) == Names(names) + RefsOfItems(COMPONENTS, items)
    decreases items, 0
  {
    r := names;
    var i := 0;
    while i < |items|
      invariant i <= |items| && NoDuplicates(r) && names <= r
      invariant Names(r) == Names(names) + RefsOfItems(COMPONENTS, items[..i])
    {
      r := Collect(items[i], r);
      ItemsUpTo(COMPONENTS, items, i);
      i := i + 1;
    }
    assert items[..i] == items;
  }

  method CollectFields(fields: seq<Field>, names: seq<string>) returns (r: seq<string>)
    requires NoDuplicates(names)
    ensures NoDuplicates(r) && names <= r && Names(r) == Names(names) + RefsOfFields(COMPONENTS, fields)
    decreases fields, 0
  {
    r := names;
    var i := 0;
    while i < |fields|
      invariant i <= |fields| && NoDuplicates(r) && names <= r
      invariant Names(r) == Names(names) + RefsOfFields(COMPONENTS, fields[..i])
    {
      var f := fields[i];
      if Points(COMPONENTS, f) {
        r := Add(r, Target(COMPONENTS, f));
      } else {
        r := Collect(f.value, r);
      }
      FieldsUpTo(COMPONENTS, fields, i);
      i := i + 1;
    }
    assert fields[..i] == fields;
  }

  lemma {:induction false} ItemsAppend(prefix: string, items: seq<Json>, v: Json)
    ensures RefsOfItems(prefix, items + [v]) == RefsOfItems(prefix, items) + Refs(prefix, v)
  {
    if items == [] {
      assert [v][1..] == [];
      assert RefsOfItems(prefix, [v]) == Refs(prefix, v) + RefsOfItems(prefix, []);
      assert items + [v] == [v];
    } else {
      ItemsAppend(prefix, items[1..], v);
      assert (items + [v])[1..] == items[1..] + [v];
    }
  }

  lemma ItemsUpTo(prefix: string, items: seq<Json>, i: nat)
    requires i < |items|
    ensures RefsOfItems(prefix, items[..i + 1]) == RefsOfItems(prefix, items[..i]) + Refs(prefix, items[i])
  {
    ItemsAppend(prefix, items[..i], items[i]);
    assert items[..i + 1] == items[..i] + [items[i]];
  }

  lemma {:induction false} FieldsAppend(prefix: string, fields: seq<Field>, f: Field)
    ensures RefsOfFields(prefix, fields + [f]) == RefsOfFields(prefix, fields) + RefsOfField(prefix, f)
  {
    if fields == [] {
      assert [f][1..] == [];
      assert RefsOfFields(prefix, [f]) == RefsOfField(prefix, f) + RefsOfFields(prefix, []);
      assert fields + [f] == [f];
    } else {
      FieldsAppend(prefix, fields[1..], f);
      assert (fields + [f])[1..] == fields[1..] + [f];
    }
  }

  lemma FieldsUpTo(prefix: string, fields: seq<Field>, i: nat)
    requires i < |fields|
    ensures RefsOfFields(prefix, fields[..i + 1]) == RefsOfFields(prefix, fields[..i]) + RefsOfField(prefix, fields[i])
  {
    FieldsAppend(prefix, fields[..i], fields[i]);
    assert fields[..i + 1] == fields[..i] + [fields[i]];
  }

  // ---------------------------------------------------------------- closures

  type Components = map<string, Json>

  predicate ClosedUnder(c: Components, s: set<string>) {
    forall n | n in s && n in c :: Refs(COMPONENTS, c[n]) <= s
  }

  /** Every name that can turn up. */
  function Universe(c: Components, roots: set<string>): set<string> {
    roots + set n, r | n in c && r in Refs(COMPONENTS, c[n]) :: r
  }

  /** The component names reachable from `roots`: those in every closed set around them. */
  ghost function Reachable(c: Components, roots: set<string>): set<string> {
    set n | n in Universe(c, roots) && forall t: set<string> | roots <= t && ClosedUnder(c, t) :: n in t
  }

  lemma LeastIsReachable(c: Components, roots: set<string>, s: set<string>)
    requires roots <= s <= Universe(c, roots) && ClosedUnder(c, s)
    requires forall t: set<string> | roots <= t && ClosedUnder(c, t) :: s <= t
    ensures s == Reachable(c, roots)
  {
  }

  lemma {:induction false} DistinctCount(s: seq<string>)
    requires NoDuplicates(s)
    ensures |Names(s)| == |s|
  {
    if s != [] {
      var t := s[..|s| - 1];
      DistinctCount(t);
      assert forall i | 0 <= i < |t| :: t[i] == s[i];
      assert Names(s) == Names(t) + {s[|s| - 1]};
      assert s[|s| - 1] !in Names(t);
    }
  }

  lemma FitsIn(s: seq<string>, u: set<string>)
    requires NoDuplicates(s) && Names(s) <= u
    ensures |s| <= |u|
  {
    DistinctCount(s);
    assert u == Names(s) + (u - Names(s));
  }

  /** The definitions the loop has put down, in the order of the names. */
  function DefsFor(c: Components, names: seq<string>): seq<Field> {
    if names == [] then []
    else
      var n := names[|names| - 1];
      DefsFor(c, names[..|names| - 1]) + if n in c then [Field(n, c[n])] else []
  }

  predicate Visited(c: Components, names: seq<string>, i: nat)
    requires i <= |names|
  {
    forall k | 0 <= k < i && names[k] in c :: Refs(COMPONENTS, c[names[k]]) <= Names(names)
  }

  lemma GrowVisited(c: Components, names: seq<string>, more: seq<string>, i: nat)
    requires i < |names| && names <= more && Visited(c, names, i) && Names(names) <= Names(more)
    requires names[i] in c ==> Refs(COMPONENTS, c[names[i]]) <= Names(more)
    ensures Visited(c, more, i + 1)
  {
    forall k | 0 <= k < i && more[k] in c ensures Refs(COMPONENTS, c[more[k]]) <= Names(more) {
      assert more[k] == names[k];
    }
    assert more[i] == names[i];
  }

  lemma VisitedAll(c: Components, names: seq<string>)
    requires Visited(c, names, |names|)
    ensures ClosedUnder(c, Names(names))
  {
  }

  lemma DefsUpTo(c: Components, names: seq<string>, more: seq<string>, i: nat)
    requires i < |names| && names <= more
    ensures DefsFor(c, more[..i + 1]) ==
            DefsFor(c, names[..i]) + if names[i] in c then [Field(names[i], c[names[i]])] else []
  {
    assert more[..i + 1][..i] == names[..i];
    assert more[i] == names[i];
  }

  /** The loop over a set that grows while it is iterated. */
  method Close(c: Components, roots: seq<string>) returns (names: seq<string>, defs: seq<Field>)
    requires NoDuplicates(roots)
    ensures NoDuplicates(names) && Names(names) == Reachable(c, Names(roots))
    ensures defs == DefsFor(c, names)
  {
    names, defs := roots, [];
    ghost var u := Universe(c, Names(roots));
    var i := 0;
    while i < |names|
      invariant i <= |names| && NoDuplicates(names) && Names(roots) <= Names(names) <= u
      invariant Visited(c, names, i)
      invariant forall t: set<string> | Names(roots) <= t && ClosedUnder(c, t) :: Names(names) <= t
      invariant defs == DefsFor(c, names[..i])
      decreases |u| - i
    {
      FitsIn(names, u);
      var name, before := names[i], names;
      assert name in Names(names);
      if name in c {
        defs := defs + [Field(name, c[name])];
        names := Collect(c[name], names);
      }
      GrowVisited(c, before, names, i);
      DefsUpTo(c, before, names, i);
      i := i + 1;
    }
    assert names[..i] == names;
    VisitedAll(c, names);
    LeastIsReachable(c, Names(roots), Names(names));
  }

  // ---------------------------------------------------------------- tool input schemas

  datatype Param = Param(name: string, schema: Option<Json>, required: bool)

  /** The JSON body schema as the function tells its forms apart: none, an object with properties, or any other. */
  datatype Body = NoBody | ObjectBody(properties: seq<Field>, required: seq<string>) | AnyBody(schema: Json)

  datatype Operation = Operation(parameters: seq<Param>, body: Body)

  datatype ToolSchema = ToolSchema(properties: Json, required: seq<string>, defs: seq<Field>)

  /** `object[key] = value` */
  function SetField(fields: seq<Field>, key: string, value: Json): seq<Field> {
    if fields == [] then [Field(key, value)]
    else if fields[0].key == key then [Field(key, value)] + fields[1..]
    else [fields[0]] + SetField(fields[1..], key, value)
  }

  function SchemaOf(p: Param): Json {
    match p.schema case Some(s) => s case None => Obj([Field("type", Str("string"))])
  }

  function ParamFields(params: seq<Param>): seq<Field> {
    if params == [] then []
    else SetField(ParamFields(params[..|params| - 1]), params[|params| - 1].name, SchemaOf(params[|params| - 1]))
  }

  function RequiredParams(params: seq<Param>): seq<string> {
    if params == [] then []
    else
      var last := params[|params| - 1];
      RequiredParams(params[..|params| - 1]) + if last.required then [last.name] else []
  }

  function SetAll(fields: seq<Field>, more: seq<Field>): seq<Field> {
    if more == [] then fields
    else SetField(SetAll(fields, more[..|more| - 1]), more[|more| - 1].key, more[|more| - 1].value)
  }

  function PropertiesOf(op: Operation): seq<Field> {
    match op.body
    case NoBody => ParamFields(op.parameters)
    case ObjectBody(properties, _) => SetAll(ParamFields(op.parameters), properties)
    case AnyBody(schema) => SetField(ParamFields(op.parameters), "body", schema)
  }

  function RequiredOf(op: Operation): seq<string> {
    RequiredParams(op.parameters) +
    match op.body case NoBody => [] case ObjectBody(_, required) => required case AnyBody(_) => ["body"]
  }

  /** `object[key]` */
  function FieldValue(fields: seq<Field>, key: string): Option<Json> {
    if fields == [] then None else if fields[0].key == key then Some(fields[0].value) else FieldValue(fields[1..], key)
  }

  function LastParam(params: seq<Param>, key: string): Option<Json> {
    if params == [] then None
    else if params[|params| - 1].name == key then Some(SchemaOf(params[|params| - 1]))
    else LastParam(params[..|params| - 1], key)
  }

  function LastField(fields: seq<Field>, key: string): Option<Json> {
    if fields == [] then None
    else if fields[|fields| - 1].key == key then Some(fields[|fields| - 1].value)
    else LastField(fields[..|fields| - 1], key)
  }

  function Or(a: Option<Json>, b: Option<Json>): Option<Json> {
    if a.Some? then a else b
  }

  lemma {:induction false} AfterSet(fields: seq<Field>, key: string, value: Json, k: string)
    ensures FieldValue(SetField(fields, key, value), k) == if k == key then Some(value) else FieldValue(fields, k)
  {
    var r := SetField(fields, key, value);
    if fields == [] {
      assert r[1..] == [];
    } else if fields[0].key == key {
      assert r[1..] == fields[1..];
    } else {
      AfterSet(fields[1..], key, value, k);
      assert r[1..] == SetField(fields[1..], key, value);
    }
  }

  lemma {:induction false} ParamFieldIs(params: seq<Param>, k: string)
    ensures FieldValue(ParamFields(params), k) == LastParam(params, k)
  {
    if params != [] {
      var init, last := params[..|params| - 1], params[|params| - 1];
      ParamFieldIs(init, k);
      AfterSet(ParamFields(init), last.name, SchemaOf(last), k);
    }
  }

  lemma {:induction false} AllSetIs(fields: seq<Field>, more: seq<Field>, k: string)
    ensures FieldValue(SetAll(fields, more), k) == Or(LastField(more, k), FieldValue(fields, k))
  {
    if more != [] {
      var init, last := more[..|more| - 1], more[|more| - 1];
      AllSetIs(fields, init, k);
      AfterSet(SetAll(fields, init), last.key, last.value, k);
    }
  }

  /** A property comes from the body if the body has it, and otherwise from the last parameter of that name. */
  lemma PropertyIs(op: Operation, k: string)
    ensures op.body.NoBody? ==> FieldValue(PropertiesOf(op), k) == LastParam(op.parameters, k)
    ensures op.body.ObjectBody? ==>
              FieldValue(PropertiesOf(op), k) == Or(LastField(op.body.properties, k), LastParam(op.parameters, k))
    ensures op.body.AnyBody? ==>
              FieldValue(PropertiesOf(op), k) ==
              if k == "body" then Some(op.body.schema) else LastParam(op.parameters, k)
  {
    ParamFieldIs(op.parameters, k);
    match op.body
    case NoBody =>
    case ObjectBody(properties, _) => AllSetIs(ParamFields(op.parameters), properties, k);
    case AnyBody(schema) => AfterSet(ParamFields(op.parameters), "body", schema, k);
  }

  /** The component names an operation reaches. */
  ghost function ReachedBy(op: Operation, c: Components): set<string> {
    Reachable(c, Refs(COMPONENTS, Obj(PropertiesOf(op))))
  }

  method BuildProperties(op: Operation) returns (properties: seq<Field>, required: seq<string>)
    ensures properties == PropertiesOf(op) && required == RequiredOf(op)
  {
    properties, required := [], [];
    var i := 0;
    while i < |op.parameters|
      invariant i <= |op.parameters|
      invariant properties == ParamFields(op.parameters[..i]) && required == RequiredParams(op.parameters[..i])
    {
      var param := op.parameters[i];
      assert op.parameters[..i + 1][..i] == op.parameters[..i];
      properties := SetField(properties, param.name, SchemaOf(param));
      if param.required { required := required + [param.name]; }
      i := i + 1;
    }
    assert op.parameters[..i] == op.parameters;
    match op.body
    case NoBody =>
    case ObjectBody(more, names) =>
      var j := 0;
      ghost var start := properties;
      while j < |more|
        invariant j <= |more| && properties == SetAll(start, more[..j])
      {
        assert more[..j + 1][..j] == more[..j];
        properties := SetField(properties, more[j].key, more[j].value);
        j := j + 1;
      }
      assert more[..j] == more;
      required := required + names;
    case AnyBody(schema) =>
      properties := SetField(properties, "body", schema);
      required := required + ["body"];
  }

  /** Keeps the names the components do not have. */
  function Absent(c: Components, names: seq<string>): seq<string> {
    if names == [] then [] else (if names[0] in c then [] else [names[0]]) + Absent(c, names[1..])
  }

  lemma {:induction false} AbsentAre(c: Components, names: seq<string>)
    ensures Names(Absent(c, names)) == set n | n in Names(names) && n !in c
  {
    if names != [] {
      AbsentAre(c, names[1..]);
      NamesOfCons(names);
      var r := Absent(c, names);
      if names[0] in c {
        assert r == Absent(c, names[1..]);
      } else {
        assert r[1..] == Absent(c, names[1..]);
        NamesOfCons(r);
      }
    }
  }

  lemma NamesOfCons(s: seq<string>)
    requires s != []
    ensures Names(s) == {s[0]} + Names(s[1..])
  {
    assert forall i | 0 <= i < |s[1..]| :: s[1..][i] == s[i + 1];
    assert forall i | 1 <= i < |s| :: s[i] == s[1..][i - 1];
  }

  /** Fails exactly when some reachable component is missing, and names those; otherwise the definitions
      are the reachable components. */
  method BuildToolInputSchema(op: Operation, c: Components)
      returns (r: Result<ToolSchema, seq<string>>, ghost order: seq<string>)
    ensures NoDuplicates(order) && Names(order) == ReachedBy(op, c)
    ensures r.Success? <==> ReachedBy(op, c) <= c.Keys
    ensures r.Failure? ==> Names(r.error) == ReachedBy(op, c) - c.Keys
    ensures r.Success? ==>
              r.value == ToolSchema(Rewrite(Obj(PropertiesOf(op))), RequiredOf(op), RewriteFields(DefsFor(c, order)))
  {
    var properties, required := BuildProperties(op);
    var referenced := Collect(Obj(properties), []);
    var names, defs := Close(c, referenced);
    order := names;
    assert Names(referenced) == Refs(COMPONENTS, Obj(properties));
    AbsentAre(c, names);
    var missing := Absent(c, names);
    if |missing| > 0 {
      assert missing[0] in Names(missing);
      return Failure(missing), order;
    }
    assert Names(missing) == {};
    forall n | n in Names(names) ensures n in c.Keys { assert n !in Names(missing); }
    r := Success(ToolSchema(Rewrite(Obj(properties)), required, RewriteFields(defs)));
  }

  /** The JSON the tool publishes. */
  function Render(t: ToolSchema): Json {
    Obj([Field("type", Str("object")), Field("properties", t.properties)]
        + (if t.required == [] then [] else [Field("required", Arr(Texts(t.required)))])
        + (if t.defs == [] then [] else [Field("$defs", Obj(t.defs))]))
  }

  function Texts(names: seq<string>): seq<Json> {
    if names == [] then [] else [Str(names[0])] + Texts(names[1..])
  }

  lemma {:induction false} TextsHaveNoRefs(prefix: string, names: seq<string>)
    ensures RefsOfItems(prefix, Texts(names)) == {}
  {
    if names != [] { TextsHaveNoRefs(prefix, names[1..]); assert Texts(names)[1..] == Texts(names[1..]); }
  }

  lemma OneField(prefix: string, key: string, v: Json)
    requires key != "$ref"
    ensures RefsOfFields(prefix, [Field(key, v)]) == Refs(prefix, v)
  {
    assert [Field(key, v)][1..] == [];
  }

  lemma RefsOfRender(prefix: string, t: ToolSchema)
    ensures Refs(prefix, Render(t)) == Refs(prefix, t.properties) + RefsOfFields(prefix, t.defs)
  {
    assert "type"[0] != "$ref"[0];
    var kind, properties := [Field("type", Str("object"))], [Field("properties", t.properties)];
    var required := if t.required == [] then [] else [Field("required", Arr(Texts(t.required)))];
    var defs := if t.defs == [] then [] else [Field("$defs", Obj(t.defs))];
    TextsHaveNoRefs(prefix, t.required);
    OneField(prefix, "type", Str("object"));
    OneField(prefix, "properties", t.properties);
    OneField(prefix, "required", Arr(Texts(t.required)));
    OneField(prefix, "$defs", Obj(t.defs));
    FieldsJoin(prefix, kind, properties);
    FieldsJoin(prefix, kind + properties, required);
    FieldsJoin(prefix, kind + properties + required, defs);
    assert kind + properties == [Field("type", Str("object")), Field("properties", t.properties)];
    assert Render(t) == Obj(kind + properties + required + defs);
  }

  lemma {:induction false} FieldsJoin(prefix: string, a: seq<Field>, b: seq<Field>)
    ensures RefsOfFields(prefix, a + b) == RefsOfFields(prefix, a) + RefsOfFields(prefix, b)
  {
    if a == [] { assert a + b == b; }
    else { FieldsJoin(prefix, a[1..], b); assert (a + b)[1..] == a[1..] + b; }
  }

  // ---------------------------------------------------------------- the published schema

  /** `$defs` has one entry for each name, and it is the rewritten component. */
  lemma {:induction false} DefsAre(c: Components, names: seq<string>)
    requires forall i | 0 <= i < |names| :: names[i] in c
    ensures |DefsFor(c, names)| == |names|
    ensures forall i | 0 <= i < |names| :: DefsFor(c, names)[i] == Field(names[i], c[names[i]])
  {
    if names != [] { DefsAre(c, names[..|names| - 1]); }
  }

  lemma {:induction false} RewrittenAt(fields: seq<Field>)
    ensures |RewriteFields(fields)| == |fields|
    ensures forall i | 0 <= i < |fields| :: RewriteFields(fields)[i] == RewriteField(fields[i])
  {
    if fields != [] { RewrittenAt(fields[1..]); }
  }

  lemma {:induction false} RefsOfDefs(c: Components, names: seq<string>, s: set<string>)
    requires forall i | 0 <= i < |names| :: names[i] in c
    ensures RefsOfFields(COMPONENTS, DefsFor(c, names)) <= s <==>
              forall i | 0 <= i < |names| :: RefsOfField(COMPONENTS, Field(names[i], c[names[i]])) <= s
  {
    if names == [] {
    } else {
      var init, n := names[..|names| - 1], names[|names| - 1];
      RefsOfDefs(c, init, s);
      FieldsAppend(COMPONENTS, DefsFor(c, init), Field(n, c[n]));
      assert forall i | 0 <= i < |init| :: names[i] == init[i];
    }
  }

  /** A component that is itself called `$ref`, whose schema is a string that reads as a reference: the last
      rewriting takes it for a reference, though nobody has looked for its target. */
  predicate Dangling(c: Components, reached: set<string>) {
    "$ref" in reached && "$ref" in c
    && Points(COMPONENTS, Field("$ref", c["$ref"])) && Target(COMPONENTS, Field("$ref", c["$ref"])) !in reached
  }

  /** No component reference is left in the schema. The references that were rewritten point at definitions,
      with exactly one exception, the dangling one. */
  lemma SchemaResolves(op: Operation, c: Components, order: seq<string>, t: ToolSchema)
    requires NoDuplicates(order) && Names(order) == ReachedBy(op, c) <= c.Keys
    requires t == ToolSchema(Rewrite(Obj(PropertiesOf(op))), RequiredOf(op), RewriteFields(DefsFor(c, order)))
    ensures Refs(COMPONENTS, Render(t)) == {}
    ensures var before := [Field("properties", Obj(PropertiesOf(op)))] + [Field("$defs", Obj(DefsFor(c, order)))];
            && Refs(DEFS, Render(t)) == RefsOfFields(DEFS, before) + RefsOfFields(COMPONENTS, before)
            && (RefsOfFields(COMPONENTS, before) <= ReachedBy(op, c) <==> !Dangling(c, ReachedBy(op, c)))
    ensures |t.defs| == |order|
    ensures forall i | 0 <= i < |order| :: t.defs[i] == RewriteField(Field(order[i], c[order[i]]))
  {
    var props, defs, reached := Obj(PropertiesOf(op)), DefsFor(c, order), ReachedBy(op, c);
    forall i | 0 <= i < |order| ensures order[i] in c { assert order[i] in Names(order); }
    DefsAre(c, order);
    RewrittenAt(defs);
    RenderedRefs(props, RequiredOf(op), defs);
    RootsReachable(c, Refs(COMPONENTS, props));
    DefsResolve(c, order, reached);
  }

  lemma RenderedRefs(props: Json, required: seq<string>, defs: seq<Field>)
    ensures var t := ToolSchema(Rewrite(props), required, RewriteFields(defs));
            var before := [Field("properties", props)] + [Field("$defs", Obj(defs))];
            && Refs(COMPONENTS, Render(t)) == {}
            && Refs(DEFS, Render(t)) == RefsOfFields(DEFS, before) + RefsOfFields(COMPONENTS, before)
            && RefsOfFields(COMPONENTS, before) == Refs(COMPONENTS, props) + RefsOfFields(COMPONENTS, defs)
  {
    var t := ToolSchema(Rewrite(props), required, RewriteFields(defs));
    RefsOfRender(COMPONENTS, t);
    RefsOfRender(DEFS, t);
    RewriteRedirects(props);
    RewriteRedirectsFields(defs);
    BeforeRefs(COMPONENTS, props, defs);
    BeforeRefs(DEFS, props, defs);
  }

  lemma BeforeRefs(prefix: string, props: Json, defs: seq<Field>)
    ensures RefsOfFields(prefix, [Field("properties", props)] + [Field("$defs", Obj(defs))])
         == Refs(prefix, props) + RefsOfFields(prefix, defs)
  {
    OneField(prefix, "properties", props);
    OneField(prefix, "$defs", Obj(defs));
    FieldsJoin(prefix, [Field("properties", props)], [Field("$defs", Obj(defs))]);
  }

  lemma RootsReachable(c: Components, roots: set<string>)
    ensures roots <= Reachable(c, roots) && ClosedUnder(c, Reachable(c, roots))
  {
    var s := Reachable(c, roots);
    forall n | n in s && n in c ensures Refs(COMPONENTS, c[n]) <= s {
      forall r | r in Refs(COMPONENTS, c[n]) ensures r in s {
        forall t: set<string> | roots <= t && ClosedUnder(c, t) ensures r in t { assert n in t; }
      }
    }
  }

  lemma DefsResolve(c: Components, order: seq<string>, reached: set<string>)
    requires Names(order) == reached && ClosedUnder(c, reached)
    requires forall i | 0 <= i < |order| :: order[i] in c
    ensures RefsOfFields(COMPONENTS, DefsFor(c, order)) <= reached <==> !Dangling(c, reached)
  {
    RefsOfDefs(c, order, reached);
    forall i | 0 <= i < |order|
      ensures RefsOfField(COMPONENTS, Field(order[i], c[order[i]])) <= reached <==>
                !(order[i] == "$ref" && Dangling(c, reached))
    {
      assert order[i] in reached;
    }
    if Dangling(c, reached) {
      var i :| 0 <= i < |order| && order[i] == "$ref";
    }
  }

  /** The exception can happen. */
  lemma DanglingReference(props: seq<Field>, op: Operation, c: Components)
    requires props == [Field("$ref", Str(COMPONENTS + "$ref"))]
    requires op == Operation([Param("p", Some(Obj(props)), false)], NoBody)
    requires c == map["$ref" := Str(COMPONENTS + "x")]
    ensures ReachedBy(op, c) == {"$ref"} && Dangling(c, ReachedBy(op, c))
  {
    var f := Field("p", Obj(props));
    var params := op.parameters;
    assert params[..|params| - 1] == [];
    assert ParamFields(params[..|params| - 1]) == [];
    assert ParamFields(params) == SetField([], "p", Obj(props)) == [f];
    assert "p"[0] != "$ref"[0];
    OneField(COMPONENTS, "p", Obj(props));
    assert (COMPONENTS + "$ref")[|COMPONENTS|..] == "$ref" && (COMPONENTS + "x")[|COMPONENTS|..] == "x";
    assert props[1..] == [];
    assert RefsOfFields(COMPONENTS, props) == {"$ref"};
    LeastIsReachable(c, {"$ref"}, {"$ref"});
  }
}

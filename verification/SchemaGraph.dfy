/** The reference graph between API schemas: direct references and what they lead to. */
module SchemaGraph {
  import opened Common

  /** A JSON node. An object keeps its fields in order, each name once. */
  datatype Json = Text(s: string) | Literal(truthy: bool) | Array(items: seq<Json>) | Object(fields: seq<Field>)

  datatype Field = Field(name: string, value: Json)

  datatype Problem = UnsupportedReference(ref: string) | Dangling(name: string)

  const REF_PREFIX := "#/components/schemas/"

  const RESPONSE_META := "ResponseMeta"

  predicate Truthy(node: Json) {
    match node
    case Text(s) => s != ""
    case Literal(b) => b
    case _ => true
  }

  function Lookup(fields: seq<Field>, name: string): Option<Json> {
    if fields == [] then None
    else if fields[0].name == name then Some(fields[0].value)
    else Lookup(fields[1..], name)
  }

  /** The `$ref` of a node, when it is an object with a textual one. */
  function RefOf(node: Json): Option<string> {
    if node.Object? && Lookup(node.fields, "$ref").Some? && Lookup(node.fields, "$ref").value.Text? then
      Some(Lookup(node.fields, "$ref").value.s)
    else None
  }

  predicate IsSupported(ref: string) { |REF_PREFIX| <= |ref| && ref[..|REF_PREFIX|] == REF_PREFIX }

  function NameOf(ref: string): string
    requires IsSupported(ref)
  {
    ref[|REF_PREFIX|..]
  }

  // ----- What a node mentions -----

  /** The node, or something inside it that no other reference hides, is the reference `ref`. */
  predicate Mentions(node: Json, ref: string)
    decreases node, 0
  {
    if RefOf(node).Some? then RefOf(node).value == ref
    else
      match node
      case Array(items) => MentionedBy(items, ref)
      case Object(fields) => MentionedIn(fields, ref)
      case _ => false
  }

  predicate MentionedBy(items: seq<Json>, ref: string)
    decreases items, 1
  {
    items != [] && (Mentions(items[0], ref) || MentionedBy(items[1..], ref))
  }

  predicate MentionedIn(fields: seq<Field>, ref: string)
    decreases fields, 1
  {
    fields != [] && (Mentions(fields[0].value, ref) || MentionedIn(fields[1..], ref))
  }

  /** A field is looked up under its first occurrence. */
  lemma {:induction false} LookupIsFirst(fields: seq<Field>, name: string)
    ensures Lookup(fields, name).None? <==> forall i :: 0 <= i < |fields| ==> fields[i].name != name
    ensures Lookup(fields, name).Some? ==> exists i ::
      && 0 <= i < |fields| && fields[i] == Field(name, Lookup(fields, name).value)
      && forall j :: 0 <= j < i ==> fields[j].name != name
  {
    if fields != [] && fields[0].name != name {
      LookupIsFirst(fields[1..], name);
      if Lookup(fields, name).Some? {
        var i :| && 0 <= i < |fields[1..]| && fields[1..][i] == Field(name, Lookup(fields, name).value)
                 && forall j :: 0 <= j < i ==> fields[1..][j].name != name;
        assert fields[i + 1] == Field(name, Lookup(fields, name).value);
        forall j | 0 <= j < i + 1 ensures fields[j].name != name {
          if j > 0 { assert fields[j] == fields[1..][j - 1]; }
        }
      }
    }
  }

  /** The item or field value in one place of a node. */
  function Child(node: Json, k: nat): Option<Json> {
    match node
    case Array(items) => if k < |items| then Some(items[k]) else None
    case Object(fields) => if k < |fields| then Some(fields[k].value) else None
    case _ => None
  }

  /** The places lead from the node through nodes that are no references to the reference `ref`. */
  predicate Leads(node: Json, places: seq<nat>, ref: string)
    decreases |places|
  {
    if places == [] then RefOf(node) == Some(ref)
    else
      && RefOf(node).None? && Child(node, places[0]).Some?
      && Leads(Child(node, places[0]).value, places[1..], ref)
  }

  lemma {:induction false} MentionLeads(node: Json, ref: string) returns (places: seq<nat>)
    requires Mentions(node, ref)
    ensures Leads(node, places, ref)
    decreases node, 0
  {
    if RefOf(node).Some? {
      places := [];
    } else {
      var k, rest;
      match node {
        case Array(items) => k, rest := ItemLeads(items, ref);
        case Object(fields) => k, rest := FieldLeads(fields, ref);
      }
      places := [k] + rest;
      assert places[1..] == rest;
    }
  }

  lemma {:induction false} ItemLeads(items: seq<Json>, ref: string) returns (k: nat, rest: seq<nat>)
    requires MentionedBy(items, ref)
    ensures k < |items| && Leads(items[k], rest, ref)
    decreases items, 1
  {
    if Mentions(items[0], ref) {
      k := 0;
      rest := MentionLeads(items[0], ref);
    } else {
      var j;
      j, rest := ItemLeads(items[1..], ref);
      k := j + 1;
    }
  }

  lemma {:induction false} FieldLeads(fields: seq<Field>, ref: string) returns (k: nat, rest: seq<nat>)
    requires MentionedIn(fields, ref)
    ensures k < |fields| && Leads(fields[k].value, rest, ref)
    decreases fields, 1
  {
    if Mentions(fields[0].value, ref) {
      k := 0;
      rest := MentionLeads(fields[0].value, ref);
    } else {
      var j;
      j, rest := FieldLeads(fields[1..], ref);
      k := j + 1;
    }
  }

  lemma {:induction false} ItemMentions(items: seq<Json>, k: nat, ref: string)
    requires k < |items| && Mentions(items[k], ref)
    ensures MentionedBy(items, ref)
  {
    if k > 0 { ItemMentions(items[1..], k - 1, ref); }
  }

  lemma {:induction false} FieldMentions(fields: seq<Field>, k: nat, ref: string)
    requires k < |fields| && Mentions(fields[k].value, ref)
    ensures MentionedIn(fields, ref)
  {
    if k > 0 { FieldMentions(fields[1..], k - 1, ref); }
  }

  lemma {:induction false} LeadsMention(node: Json, places: seq<nat>, ref: string)
    requires Leads(node, places, ref)
    ensures Mentions(node, ref)
    decreases |places|
  {
    if places != [] {
      LeadsMention(Child(node, places[0]).value, places[1..], ref);
      match node
      case Array(items) => ItemMentions(items, places[0], ref);
      case Object(fields) => FieldMentions(fields, places[0], ref);
    }
  }

  /** Some places in the node lead to the reference. */
  ghost predicate LedTo(node: Json, ref: string) { exists places: seq<nat> :: Leads(node, places, ref) }

  /** A node mentions exactly the references it leads to. */
  lemma MentionsAreLedTo(node: Json, ref: string)
    ensures Mentions(node, ref) <==> LedTo(node, ref)
  {
    if Mentions(node, ref) { var _ := MentionLeads(node, ref); }
    if LedTo(node, ref) {
      var places: seq<nat> :| Leads(node, places, ref);
      LeadsMention(node, places, ref);
    }
  }

  // ----- Collecting references -----

  type Names = Result<seq<string>, Problem>

  function WithName(names: seq<string>, ref: string): Names {
    if !IsSupported(ref) then Err(UnsupportedReference(ref))
    else if NameOf(ref) == RESPONSE_META || NameOf(ref) in names then Ok(names)
    else Ok(names + [NameOf(ref)])
  }

  /** The `visit` closure of `directRefs`: the names so far, with the node's own added. */
  function Visit(node: Json, names: seq<string>): Names
    decreases node, 0
  {
    if RefOf(node).Some? then WithName(names, RefOf(node).value)
    else
      match node
      case Array(items) => VisitItems(items, names)
      case Object(fields) => VisitFields(fields, names)
      case _ => Ok(names)
  }

  function VisitItems(items: seq<Json>, names: seq<string>): Names
    decreases items, 1
  {
    if items == [] then Ok(names)
    else
      match Visit(items[0], names)
      case Err(p) => Err(p)
      case Ok(more) => VisitItems(items[1..], more)
  }

  function VisitFields(fields: seq<Field>, names: seq<string>): Names
    decreases fields, 1
  {
    if fields == [] then Ok(names)
    else
      match Visit(fields[0].value, names)
      case Err(p) => Err(p)
      case Ok(more) => VisitFields(fields[1..], more)
  }

  /** What a collecting step over mentions `said` must give. */
  ghost predicate Collects(said: string -> bool, names: seq<string>, r: Names) {
    && (r.Ok? <==> forall ref :: said(ref) ==> IsSupported(ref))
    && (r.Ok? ==> forall name :: name in r.value <==>
          name in names || (name != RESPONSE_META && said(REF_PREFIX + name)))
    && (r.Err? ==> r.error.UnsupportedReference? && said(r.error.ref) && !IsSupported(r.error.ref))
  }

  lemma RefIsNamed(ref: string)
    requires IsSupported(ref)
    ensures ref == REF_PREFIX + NameOf(ref)
  {
  }

  lemma NameIsSupported(name: string)
    ensures IsSupported(REF_PREFIX + name) && NameOf(REF_PREFIX + name) == name
  {
    assert (REF_PREFIX + name)[..|REF_PREFIX|] == REF_PREFIX;
    assert (REF_PREFIX + name)[|REF_PREFIX|..] == name;
  }

  lemma RefCollects(said: string -> bool, ref: string, names: seq<string>)
    requires forall x :: said(x) <==> x == ref
    ensures Collects(said, names, WithName(names, ref))
  {
    if IsSupported(ref) {
      RefIsNamed(ref);
      forall name ensures said(REF_PREFIX + name) <==> name == NameOf(ref) {
        NameIsSupported(name);
      }
    }
  }

  lemma BothCollect(
    first: string -> bool, rest: string -> bool, said: string -> bool, names: seq<string>, mid: Names, r: Names)
    requires forall x :: said(x) <==> first(x) || rest(x)
    requires Collects(first, names, mid)
    requires if mid.Ok? then Collects(rest, mid.value, r) else r == mid
    ensures Collects(said, names, r)
  {
  }

  lemma {:induction false} VisitCollects(node: Json, names: seq<string>)
    ensures Collects(ref => Mentions(node, ref), names, Visit(node, names))
    decreases node, 0
  {
    var said := ref => Mentions(node, ref);
    if RefOf(node).Some? {
      RefCollects(said, RefOf(node).value, names);
    } else {
      match node
      case Array(items) =>
        ItemsCollect(items, names);
        SameCollect(ref => MentionedBy(items, ref), said, names, Visit(node, names));
      case Object(fields) =>
        FieldsCollect(fields, names);
        SameCollect(ref => MentionedIn(fields, ref), said, names, Visit(node, names));
      case _ =>
    }
  }

  lemma SameCollect(a: string -> bool, b: string -> bool, names: seq<string>, r: Names)
    requires Collects(a, names, r) && forall x :: a(x) <==> b(x)
    ensures Collects(b, names, r)
  {
  }

  lemma {:induction false} ItemsCollect(items: seq<Json>, names: seq<string>)
    ensures Collects(ref => MentionedBy(items, ref), names, VisitItems(items, names))
    decreases items, 1
  {
    if items != [] {
      VisitCollects(items[0], names);
      var mid := Visit(items[0], names);
      if mid.Ok? { ItemsCollect(items[1..], mid.value); }
      BothCollect(ref => Mentions(items[0], ref), ref => MentionedBy(items[1..], ref),
                  ref => MentionedBy(items, ref), names, mid, VisitItems(items, names));
    }
  }

  lemma {:induction false} FieldsCollect(fields: seq<Field>, names: seq<string>)
    ensures Collects(ref => MentionedIn(fields, ref), names, VisitFields(fields, names))
    decreases fields, 1
  {
    if fields != [] {
      VisitCollects(fields[0].value, names);
      var mid := Visit(fields[0].value, names);
      if mid.Ok? { FieldsCollect(fields[1..], mid.value); }
      BothCollect(ref => Mentions(fields[0].value, ref), ref => MentionedIn(fields[1..], ref),
                  ref => MentionedIn(fields, ref), names, mid, VisitFields(fields, names));
    }
  }

  /** `directRefs`. */
  function DirectRefs(node: Json): Names { Visit(node, []) }

  /** The direct references are exactly the supported mentions other than the response envelope's metadata. */
  lemma DirectRefsAreMentions(node: Json)
    ensures DirectRefs(node).Ok? <==> forall ref :: Mentions(node, ref) ==> IsSupported(ref)
    ensures DirectRefs(node).Ok? ==> forall name ::
      name in DirectRefs(node).value <==> name != RESPONSE_META && Mentions(node, REF_PREFIX + name)
  {
    VisitCollects(node, []);
    var said := ref => Mentions(node, ref);
    assert Collects(said, [], DirectRefs(node));
    assert forall ref :: said(ref) <==> Mentions(node, ref);
  }

  // ----- Reachability -----

  type Schemas = map<string, Json>

  /** The schema exists and its references can be read. */
  predicate Readable(schemas: Schemas, name: string) {
    name in schemas && Truthy(schemas[name]) && DirectRefs(schemas[name]).Ok?
  }

  predicate Edge(schemas: Schemas, a: string, b: string) {
    Readable(schemas, a) && b in DirectRefs(schemas[a]).value
  }

  /** A chain of direct references that starts at a root. */
  ghost predicate IsPath(schemas: Schemas, roots: seq<string>, path: seq<string>) {
    && path != [] && path[0] in roots
    && forall i :: 0 <= i < |path| - 1 ==> Edge(schemas, path[i], path[i + 1])
  }

  ghost predicate Reaches(schemas: Schemas, roots: seq<string>, name: string) {
    exists path :: IsPath(schemas, roots, path) && path[|path| - 1] == name
  }

  lemma RootReaches(schemas: Schemas, roots: seq<string>, name: string)
    requires name in roots
    ensures Reaches(schemas, roots, name)
  {
    assert IsPath(schemas, roots, [name]);
  }

  lemma StepReaches(schemas: Schemas, roots: seq<string>, a: string, b: string)
    requires Reaches(schemas, roots, a) && Edge(schemas, a, b)
    ensures Reaches(schemas, roots, b)
  {
    var path :| IsPath(schemas, roots, path) && path[|path| - 1] == a;
    var longer := path + [b];
    assert forall i :: 0 <= i < |longer| - 1 ==> Edge(schemas, longer[i], longer[i + 1]);
    assert IsPath(schemas, roots, longer);
  }

  ghost predicate Closed(schemas: Schemas, s: set<string>) {
    forall a, b :: a in s && Edge(schemas, a, b) ==> b in s
  }

  lemma {:induction false} PathStaysInside(schemas: Schemas, roots: seq<string>, s: set<string>, path: seq<string>)
    requires IsPath(schemas, roots, path) && Closed(schemas, s) && forall name :: name in roots ==> name in s
    ensures path[|path| - 1] in s
  {
    if |path| > 1 {
      var init := path[..|path| - 1];
      assert forall i :: 0 <= i < |init| - 1 ==> Edge(schemas, init[i], init[i + 1]);
      PathStaysInside(schemas, roots, s, init);
      assert Edge(schemas, path[|path| - 2], path[|path| - 1]);
    }
  }

  /** A closed set that holds the roots holds everything reachable. */
  lemma ReachesStaysInside(schemas: Schemas, roots: seq<string>, s: set<string>, name: string)
    requires Reaches(schemas, roots, name) && Closed(schemas, s) && forall root :: root in roots ==> root in s
    ensures name in s
  {
    var path :| IsPath(schemas, roots, path) && path[|path| - 1] == name;
    PathStaysInside(schemas, roots, s, path);
  }

  /** Everything waiting or seen is reachable, and what has been seen leads only to what waits or has been seen. */
  ghost predicate SearchInv(schemas: Schemas, roots: seq<string>, seen: set<string>, stack: seq<string>) {
    && (forall name :: name in seen ==> Readable(schemas, name))
    && (forall name :: name in seen || name in stack ==> Reaches(schemas, roots, name))
    && (forall a, b :: a in seen && Edge(schemas, a, b) ==> b in seen || b in stack)
    && (forall root :: root in roots ==> root in seen || root in stack)
  }

  lemma InStack(stack: seq<string>, x: string)
    requires stack != [] && x in stack
    ensures x == stack[|stack| - 1] || x in stack[..|stack| - 1]
  {
  }

  lemma SearchSkips(schemas: Schemas, roots: seq<string>, seen: set<string>, stack: seq<string>)
    requires stack != [] && SearchInv(schemas, roots, seen, stack) && stack[|stack| - 1] in seen
    ensures SearchInv(schemas, roots, seen, stack[..|stack| - 1])
  {
    forall x | x in stack ensures x in seen || x in stack[..|stack| - 1] {
      InStack(stack, x);
    }
  }

  lemma SearchAdds(schemas: Schemas, roots: seq<string>, seen: set<string>, stack: seq<string>)
    requires stack != [] && SearchInv(schemas, roots, seen, stack) && Readable(schemas, stack[|stack| - 1])
    ensures
      var name := stack[|stack| - 1];
      SearchInv(schemas, roots, seen + {name}, stack[..|stack| - 1] + DirectRefs(schemas[name]).value)
  {
    var name := stack[|stack| - 1];
    var more := DirectRefs(schemas[name]).value;
    forall x | x in more ensures Reaches(schemas, roots, x) {
      StepReaches(schemas, roots, name, x);
    }
    forall x | x in stack ensures x in seen + {name} || x in stack[..|stack| - 1] + more {
      InStack(stack, x);
    }
  }

  /**
   `reachable`: stops on every graph, cycles included. It gives the names that chains of
   references from the roots end in, which is the least closed set that holds the roots,
   and fails exactly when one of them cannot be read.
   */
  method Reachable(schemas: Schemas, roots: seq<string>) returns (r: Result<set<string>, Problem>)
    ensures r.Ok? ==> forall name :: name in r.value <==> Reaches(schemas, roots, name)
    ensures r.Ok? ==> Closed(schemas, r.value) && forall name :: name in r.value ==> Readable(schemas, name)
    ensures r.Err? ==> exists name :: Reaches(schemas, roots, name) && !Readable(schemas, name)
  {
    var seen: set<string> := {};
    var stack := roots;
    forall name | name in roots ensures Reaches(schemas, roots, name) {
      RootReaches(schemas, roots, name);
    }
    while stack != []
      invariant SearchInv(schemas, roots, seen, stack)
      decreases schemas.Keys - seen, |stack|
    {
      var name := stack[|stack| - 1];
      if name in seen {
        SearchSkips(schemas, roots, seen, stack);
        stack := stack[..|stack| - 1];
        continue;
      }
      if name !in schemas || !Truthy(schemas[name]) {
        assert Reaches(schemas, roots, name) && !Readable(schemas, name);
        return Err(Dangling(name));
      }
      var refs := DirectRefs(schemas[name]);
      if refs.Err? {
        assert Reaches(schemas, roots, name) && !Readable(schemas, name);
        return Err(refs.error);
      }
      SearchAdds(schemas, roots, seen, stack);
      assert name in schemas.Keys - seen && name !in schemas.Keys - (seen + {name});
      seen := seen + {name};
      stack := stack[..|stack| - 1] + refs.value;
    }
    forall name ensures name in seen <==> Reaches(schemas, roots, name) {
      if Reaches(schemas, roots, name) {
        ReachesStaysInside(schemas, roots, seen, name);
      }
    }
    return Ok(seen);
  }

  /** The result is the least closed set that holds the roots. */
  lemma LeastClosed(schemas: Schemas, roots: seq<string>, s: set<string>, other: set<string>)
    requires forall name :: name in s <==> Reaches(schemas, roots, name)
    requires Closed(schemas, other) && forall root :: root in roots ==> root in other
    ensures s <= other
  {
    forall name | name in s ensures name in other {
      ReachesStaysInside(schemas, roots, other, name);
    }
  }
}

/** Which page section each schema is documented in: the tag that alone reaches it, or a common one. */
module SchemaGroups {
  import opened Common
  import opened SchemaGraph

  /** An API operation: its tag, and the schemas of its request, success responses and parameters. */
  datatype Operation = Operation(tag: string, schemas: seq<Json>)

  const SHARED_GROUP := "shared"
  const ENVELOPE_GROUP := "envelope"
  const UNREFERENCED_GROUP := "unreferenced"
  const ENVELOPE_SCHEMAS := {"ApiErrorBody", "ApiErrorDetail", "ResponseMeta"}

  // ----- What the groups mean -----

  /** One schema of an operation leads to the name. */
  ghost predicate SchemaReaches(schemas: Schemas, node: Json, name: string) {
    DirectRefs(node).Ok? && Reaches(schemas, DirectRefs(node).value, name)
  }

  /** One of the first `n` schemas does. */
  ghost predicate OperationReaches(schemas: Schemas, op: Operation, n: nat, name: string)
    requires n <= |op.schemas|
  {
    exists i :: 0 <= i < n && SchemaReaches(schemas, op.schemas[i], name)
  }

  /** One of the first `n` operations carries the tag and reaches the name. */
  ghost predicate TagReaches(schemas: Schemas, operations: seq<Operation>, n: nat, tag: string, name: string)
    requires n <= |operations|
  {
    exists i ::
      && 0 <= i < n && operations[i].tag == tag
      && OperationReaches(schemas, operations[i], |operations[i].schemas|, name)
  }

  /** Every reference an operation leads to can be followed. */
  ghost predicate SchemaFollows(schemas: Schemas, node: Json) {
    && DirectRefs(node).Ok?
    && forall name :: Reaches(schemas, DirectRefs(node).value, name) ==> Readable(schemas, name)
  }

  ghost predicate OperationFollows(schemas: Schemas, op: Operation) {
    forall i :: 0 <= i < |op.schemas| ==> SchemaFollows(schemas, op.schemas[i])
  }

  function GroupName(name: string, tags: set<string>): string
  {
    if tags == {} then if name in ENVELOPE_SCHEMAS then ENVELOPE_GROUP else UNREFERENCED_GROUP
    else if |tags| == 1 then OnlyOf(tags)
    else SHARED_GROUP
  }

  function OnlyOf(tags: set<string>): (tag: string)
    requires |tags| == 1
    ensures tags == {tag}
  {
    OneElement(tags);
    var tag :| tag in tags;
    tag
  }

  lemma OneElement(tags: set<string>)
    requires |tags| == 1
    ensures exists tag :: tag in tags
    ensures forall a, b :: a in tags && b in tags ==> a == b
  {
    var tag :| tag in tags;
    assert |tags - {tag}| == 0;
    assert tags == {tag};
  }

  /** The tags that reach a name, as a set. */
  ghost predicate AreTags(schemas: Schemas, operations: seq<Operation>, name: string, tags: set<string>) {
    forall tag :: tag in tags <==> TagReaches(schemas, operations, |operations|, tag, name)
  }

  // ----- Assigning -----

  type Reach = map<string, set<string>>

  function Tags(reach: Reach, name: string): set<string> { if name in reach then reach[name] else {} }

  /** The innermost loop: the tag goes to every name that was reached. */
  method AddTag(reach: Reach, tag: string, names: set<string>) returns (r: Reach)
    ensures forall name :: Tags(r, name) == Tags(reach, name) + if name in names then {tag} else {}
  {
    r := reach;
    var rest := names;
    while rest != {}
      invariant rest <= names
      invariant forall name ::
        Tags(r, name) == Tags(reach, name) + if name in names && name !in rest then {tag} else {}
      decreases rest
    {
      var name :| name in rest;
      r := r[name := Tags(r, name) + {tag}];
      rest := rest - {name};
    }
  }

  /** One operation's turn of the outer loop. */
  method AddOperation(schemas: Schemas, op: Operation, reach: Reach) returns (r: Result<Reach, Problem>)
    ensures r.Ok? <==> OperationFollows(schemas, op)
    ensures r.Ok? ==> forall name, tag :: tag in Tags(r.value, name) <==>
      tag in Tags(reach, name) || (tag == op.tag && OperationReaches(schemas, op, |op.schemas|, name))
  {
    var now := reach;
    for i := 0 to |op.schemas|
      invariant forall k :: 0 <= k < i ==> SchemaFollows(schemas, op.schemas[k])
      invariant forall name, tag :: tag in Tags(now, name) <==>
        tag in Tags(reach, name) || (tag == op.tag && OperationReaches(schemas, op, i, name))
    {
      var direct := DirectRefs(op.schemas[i]);
      if direct.Err? {
        assert !SchemaFollows(schemas, op.schemas[i]);
        return Err(direct.error);
      }
      var reached := Reachable(schemas, direct.value);
      if reached.Err? {
        assert !SchemaFollows(schemas, op.schemas[i]);
        return Err(reached.error);
      }
      ghost var before := now;
      now := AddTag(now, op.tag, reached.value);
      OneMoreSchema(schemas, op, i, reached.value, reach, before, now);
    }
    return Ok(now);
  }

  lemma OneMoreSchema(
    schemas: Schemas, op: Operation, i: nat, reached: set<string>, reach: Reach, before: Reach, now: Reach)
    requires i < |op.schemas| && DirectRefs(op.schemas[i]).Ok?
    requires forall name :: name in reached <==> Reaches(schemas, DirectRefs(op.schemas[i]).value, name)
    requires forall name, tag :: tag in Tags(before, name) <==>
      tag in Tags(reach, name) || (tag == op.tag && OperationReaches(schemas, op, i, name))
    requires forall name :: Tags(now, name) == Tags(before, name) + if name in reached then {op.tag} else {}
    ensures forall name, tag :: tag in Tags(now, name) <==>
      tag in Tags(reach, name) || (tag == op.tag && OperationReaches(schemas, op, i + 1, name))
  {
    forall name ensures OperationReaches(schemas, op, i + 1, name) <==>
        OperationReaches(schemas, op, i, name) || name in reached
    {
      NextSchema(schemas, op, i, name);
    }
  }

  lemma NextSchema(schemas: Schemas, op: Operation, i: nat, name: string)
    requires i < |op.schemas|
    ensures OperationReaches(schemas, op, i + 1, name) <==>
        OperationReaches(schemas, op, i, name) || SchemaReaches(schemas, op.schemas[i], name)
  {
    if SchemaReaches(schemas, op.schemas[i], name) {
      assert OperationReaches(schemas, op, i + 1, name);
    }
  }

  lemma NextOperation(schemas: Schemas, operations: seq<Operation>, n: nat, tag: string, name: string)
    requires n < |operations|
    ensures TagReaches(schemas, operations, n + 1, tag, name) <==>
      || TagReaches(schemas, operations, n, tag, name)
      || (tag == operations[n].tag && OperationReaches(schemas, operations[n], |operations[n].schemas|, name))
  {
    var op := operations[n];
    if tag == op.tag && OperationReaches(schemas, op, |op.schemas|, name) {
      assert TagReaches(schemas, operations, n + 1, tag, name);
    }
  }

  /** The part of the reference that grouping reads and writes. */
  class Reference {
    const schemas: Schemas
    const operations: seq<Operation>
    var schemaGroups: map<string, string>

    constructor (schemas: Schemas, operations: seq<Operation>)
      ensures this.schemas == schemas && this.operations == operations && schemaGroups == map[]
    {
      this.schemas := schemas;
      this.operations := operations;
      schemaGroups := map[];
    }

    /** Every schema has the group its tags decide. */
    ghost predicate Grouped()
      reads this
    {
      && schemaGroups.Keys == schemas.Keys
      && forall name :: name in schemas ==>
           exists tags :: AreTags(schemas, operations, name, tags) && schemaGroups[name] == GroupName(name, tags)
    }

    method CollectTags() returns (r: Result<Reach, Problem>)
      ensures r.Ok? <==> forall i :: 0 <= i < |operations| ==> OperationFollows(schemas, operations[i])
      ensures r.Ok? ==> forall name :: AreTags(schemas, operations, name, Tags(r.value, name))
    {
      var reach: Reach := map[];
      for n := 0 to |operations|
        invariant forall i :: 0 <= i < n ==> OperationFollows(schemas, operations[i])
        invariant forall name, tag :: tag in Tags(reach, name) <==> TagReaches(schemas, operations, n, tag, name)
      {
        var more := AddOperation(schemas, operations[n], reach);
        if more.Err? {
          return Err(more.error);
        }
        forall name, tag ensures tag in Tags(more.value, name) <==> TagReaches(schemas, operations, n + 1, tag, name) {
          NextOperation(schemas, operations, n, tag, name);
        }
        reach := more.value;
      }
      return Ok(reach);
    }

    /** `assignSchemaGroups`: groups every schema, or fails exactly when some reference cannot be followed. */
    method AssignSchemaGroups() returns (r: Result<(), Problem>)
      requires schemaGroups == map[]
      modifies this
      ensures r.Ok? <==> forall i :: 0 <= i < |operations| ==> OperationFollows(schemas, operations[i])
      ensures r.Ok? ==> Grouped()
      ensures r.Err? ==> schemaGroups == map[]
    {
      var reach := CollectTags();
      if reach.Err? {
        return Err(reach.error);
      }
      var rest := schemas.Keys;
      while rest != {}
        invariant rest <= schemas.Keys && schemaGroups.Keys == schemas.Keys - rest
        invariant forall name :: name in schemaGroups ==>
          schemaGroups[name] == GroupName(name, Tags(reach.value, name))
        decreases rest
      {
        var name :| name in rest;
        var tags := Tags(reach.value, name);
        var group;
        if tags == {} {
          group := if name in ENVELOPE_SCHEMAS then ENVELOPE_GROUP else UNREFERENCED_GROUP;
        } else {
          group := if |tags| == 1 then OnlyOf(tags) else SHARED_GROUP;
        }
        schemaGroups := schemaGroups[name := group];
        rest := rest - {name};
      }
      forall name | name in schemas
        ensures exists tags :: AreTags(schemas, operations, name, tags) && schemaGroups[name] == GroupName(name, tags)
      {
        assert AreTags(schemas, operations, name, Tags(reach.value, name));
      }
      return Ok(());
    }
  }

  // ----- What a group says -----

  /** The tag's operations reach the name and no other tag's do. */
  ghost predicate OnlyTag(schemas: Schemas, operations: seq<Operation>, tag: string, name: string) {
    && TagReaches(schemas, operations, |operations|, tag, name)
    && forall other :: TagReaches(schemas, operations, |operations|, other, name) ==> other == tag
  }

  ghost predicate NoTag(schemas: Schemas, operations: seq<Operation>, name: string) {
    forall tag :: !TagReaches(schemas, operations, |operations|, tag, name)
  }

  ghost predicate TwoTags(schemas: Schemas, operations: seq<Operation>, name: string) {
    exists a, b ::
      && a != b && TagReaches(schemas, operations, |operations|, a, name)
      && TagReaches(schemas, operations, |operations|, b, name)
  }

  /** How many tags reach a name is how large their set is. */
  lemma TagsCount(schemas: Schemas, operations: seq<Operation>, name: string, tags: set<string>)
    requires AreTags(schemas, operations, name, tags)
    ensures tags == {} <==> NoTag(schemas, operations, name)
    ensures forall tag :: tags == {tag} <==> OnlyTag(schemas, operations, tag, name)
    ensures |tags| >= 2 <==> TwoTags(schemas, operations, name)
  {
    forall tag ensures tags == {tag} <==> OnlyTag(schemas, operations, tag, name) {
      if OnlyTag(schemas, operations, tag, name) {
        assert tag in tags && forall other :: other in tags ==> other == tag;
      }
    }
    if |tags| >= 2 {
      var a :| a in tags;
      assert |tags - {a}| >= 1;
      var b :| b in tags - {a};
      assert TagReaches(schemas, operations, |operations|, a, name);
      assert TagReaches(schemas, operations, |operations|, b, name);
    } else if |tags| == 1 {
      OneElement(tags);
    }
  }

  /**
   After grouping, a schema's group is a given name exactly when that is the only tag that
   reaches it, or the name is one of the generator's own and the schema is of its kind:
   reached by two tags, or by none and part of the envelope or not.
   */
  lemma GroupMeans(reference: Reference, name: string, group: string)
    requires reference.Grouped() && name in reference.schemas
    ensures reference.schemaGroups[name] == group <==>
      || OnlyTag(reference.schemas, reference.operations, group, name)
      || (group == SHARED_GROUP && TwoTags(reference.schemas, reference.operations, name))
      || (NoTag(reference.schemas, reference.operations, name)
          && group == if name in ENVELOPE_SCHEMAS then ENVELOPE_GROUP else UNREFERENCED_GROUP)
  {
    var schemas, operations := reference.schemas, reference.operations;
    var tags :| AreTags(schemas, operations, name, tags) && reference.schemaGroups[name] == GroupName(name, tags);
    TagsCount(schemas, operations, name, tags);
    if |tags| == 1 {
      assert tags == {OnlyOf(tags)};
      assert OnlyTag(schemas, operations, OnlyOf(tags), name);
    }
    if OnlyTag(schemas, operations, group, name) { assert |tags| == 1; }
  }

  /** An ordinary tag is a schema's group exactly when that tag's operations, and no other's, reach it. */
  lemma OwnGroup(reference: Reference, name: string, tag: string)
    requires reference.Grouped() && name in reference.schemas
    ensures tag !in {SHARED_GROUP, ENVELOPE_GROUP, UNREFERENCED_GROUP} ==>
      (reference.schemaGroups[name] == tag <==> OnlyTag(reference.schemas, reference.operations, tag, name))
  {
    GroupMeans(reference, name, tag);
  }

  /** A schema that two tags reach is shared, and so is one that only a tag called `shared` reaches; no other is. */
  lemma SharedGroup(reference: Reference, name: string)
    requires reference.Grouped() && name in reference.schemas
    ensures reference.schemaGroups[name] == SHARED_GROUP <==>
      || TwoTags(reference.schemas, reference.operations, name)
      || OnlyTag(reference.schemas, reference.operations, SHARED_GROUP, name)
  {
    GroupMeans(reference, name, SHARED_GROUP);
  }

  /** A tag called like a section puts the schemas that only it reaches into that section. */
  lemma SectionTagIsAmbiguous(reference: Reference, name: string, group: string)
    requires reference.Grouped() && name in reference.schemas
    requires group in {SHARED_GROUP, ENVELOPE_GROUP, UNREFERENCED_GROUP}
    requires OnlyTag(reference.schemas, reference.operations, group, name)
    ensures reference.schemaGroups[name] == group
    ensures !TwoTags(reference.schemas, reference.operations, name)
    ensures !NoTag(reference.schemas, reference.operations, name)
  {
    GroupMeans(reference, name, group);
  }
}

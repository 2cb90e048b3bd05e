/** The llm_prompt_templates table: rows, queries and the single-statement changes made to it. */
module PromptRows {
  import opened TemplateEngine
  import opened Wrappers

  datatype Status = Draft | Published | Archived

  datatype PromptKey = PromptKey(tenant: string, name: string)

  datatype Template = Template(
    id: string, prompt: PromptKey, version: nat, content: string, systemMessage: Option<string>,
    variables: seq<VarDef>, parent: Option<string>, createdBy: string,
    status: Status, isPublished: bool, publishedBy: Option<string>, usage: nat)

  datatype Request = Request(content: string, systemMessage: Option<string>, variables: seq<VarDef>)

  type Rows = seq<Template>

  // ---- Queries ----

  predicate Is(r: Template, p: PromptKey, v: nat) {
    r.prompt == p && r.version == v
  }

  predicate Has(rows: Rows, p: PromptKey, v: nat) {
    exists i :: 0 <= i < |rows| && Is(rows[i], p, v)
  }

  /** The highest version number of a prompt, 0 when it has none. */
  function Latest(rows: Rows, p: PromptKey): (m: nat)
    ensures forall i :: 0 <= i < |rows| && rows[i].prompt == p ==> rows[i].version <= m
    ensures m > 0 ==> Has(rows, p, m)
  {
    if rows == [] then 0
    else
      var m := Latest(rows[1..], p);
      assert m > 0 ==> exists i :: 0 <= i < |rows| - 1 && Is(rows[1..][i], p, m) && Is(rows[i + 1], p, m);
      assert forall i :: 0 < i < |rows| ==> rows[i] == rows[1..][i - 1];
      if rows[0].prompt == p && rows[0].version > m then
        assert Is(rows[0], p, rows[0].version);
        rows[0].version
      else m
  }

  function FindVersion(rows: Rows, p: PromptKey, v: nat): (r: Option<nat>)
    ensures r.Some? ==> r.value < |rows| && Is(rows[r.value], p, v)
    ensures r.None? ==> !Has(rows, p, v)
  {
    if rows == [] then None
    else if Is(rows[0], p, v) then Some(0)
    else
      var k := FindVersion(rows[1..], p, v);
      assert forall i :: 0 < i < |rows| ==> rows[i] == rows[1..][i - 1];
      assert k.None? ==> forall i :: 0 <= i < |rows[1..]| ==> !Is(rows[1..][i], p, v);
      if k.Some? then Some(k.value + 1) else None
  }

  function FindId(rows: Rows, id: string): (r: Option<nat>)
    ensures r.Some? ==> r.value < |rows| && rows[r.value].id == id
    ensures r.None? ==> forall i :: 0 <= i < |rows| ==> rows[i].id != id
  {
    if rows == [] then None
    else if rows[0].id == id then Some(0)
    else
      var k := FindId(rows[1..], id);
      assert forall i :: 0 < i < |rows| ==> rows[i] == rows[1..][i - 1];
      if k.Some? then Some(k.value + 1) else None
  }

  // ---- Changes ----

  function NewVariables(request: Request, inherited: seq<VarDef>): seq<VarDef> {
    if request.variables != [] then request.variables
    else if Detected(request.content) != [] then AutoDefs(Detected(request.content))
    else inherited
  }

  /** The row create_prompt prepares from the version number it read: version 1 publishes itself. */
  function Created(rows: Rows, id: string, p: PromptKey, request: Request, user: string): Template {
    var version := Latest(rows, p) + 1;
    var first := version == 1;
    Template(id, p, version, request.content, request.systemMessage, NewVariables(request, []), None, user,
             if first then Published else Draft, first, if first then Some(user) else None, 0)
  }

  /** The row update_prompt prepares: a draft derived from its source row. */
  function Updated(rows: Rows, id: string, source: Template, request: Request, user: string): Template {
    Template(id, source.prompt, Latest(rows, source.prompt) + 1, request.content,
             if request.systemMessage.Some? then request.systemMessage else source.systemMessage,
             NewVariables(request, source.variables), Some(source.id), user, Draft, false, None, 0)
  }

  /** The primary key and the unique (tenant, name, version) constraint. */
  predicate Clashes(rows: Rows, row: Template) {
    FindId(rows, row.id).Some? || FindVersion(rows, row.prompt, row.version).Some?
  }

  function Insert(rows: Rows, row: Template): Rows {
    if Clashes(rows, row) then rows else rows + [row]
  }

  function Republish(r: Template, p: PromptKey, v: nat, user: string): Template {
    if r.prompt != p then r
    else if r.version == v then r.(status := Published, isPublished := true, publishedBy := Some(user))
    else r.(status := Archived, isPublished := false)
  }

  /** Publish version v and archive every other version of the prompt, whether or not v exists. */
  function Release(rows: Rows, p: PromptKey, v: nat, user: string): (r: Rows)
    ensures |r| == |rows| && forall i :: 0 <= i < |rows| ==> r[i] == Republish(rows[i], p, v, user)
  {
    seq(|rows|, i requires 0 <= i < |rows| => Republish(rows[i], p, v, user))
  }

  function CountUse(rows: Rows, id: string): (r: Rows)
    ensures |r| == |rows|
    ensures forall i :: 0 <= i < |rows| ==> r[i] == if rows[i].id == id then rows[i].(usage := rows[i].usage + 1) else rows[i]
  {
    seq(|rows|, i requires 0 <= i < |rows| => if rows[i].id == id then rows[i].(usage := rows[i].usage + 1) else rows[i])
  }

  // ---- Table invariants ----

  ghost predicate UniqueIds(rows: Rows) {
    forall i, j :: 0 <= i < j < |rows| ==> rows[i].id != rows[j].id
  }

  ghost predicate UniqueVersions(rows: Rows) {
    forall i, j :: 0 <= i < j < |rows| ==> !Is(rows[i], rows[j].prompt, rows[j].version)
  }

  /** Versions start at 1, and below every version the previous one exists. */
  ghost predicate NoGapBelow(rows: Rows, r: Template) {
    r.version >= 1 && (r.version > 1 ==> Has(rows, r.prompt, r.version - 1))
  }

  ghost predicate Contiguous(rows: Rows) {
    forall i :: 0 <= i < |rows| ==> NoGapBelow(rows, rows[i])
  }

  /** A parent link points to an older version of the same prompt. */
  ghost predicate ParentIsOlder(rows: Rows, r: Template) {
    r.parent.Some? ==>
      exists j :: 0 <= j < |rows| && rows[j].id == r.parent.value && rows[j].prompt == r.prompt && rows[j].version < r.version
  }

  ghost predicate Lineaged(rows: Rows) {
    forall i :: 0 <= i < |rows| ==> ParentIsOlder(rows, rows[i])
  }

  predicate FlagAgrees(r: Template) {
    r.isPublished <==> r.status == Published
  }

  ghost predicate OnePublished(rows: Rows) {
    && (forall i :: 0 <= i < |rows| ==> FlagAgrees(rows[i]))
    && (forall i, j :: 0 <= i < j < |rows| && rows[i].isPublished && rows[j].isPublished ==> rows[i].prompt != rows[j].prompt)
  }

  ghost predicate RowsInv(rows: Rows) {
    UniqueIds(rows) && UniqueVersions(rows) && Contiguous(rows) && Lineaged(rows) && OnePublished(rows)
  }

  /** A row prepared by a transaction that has not inserted it yet. */
  ghost predicate Prepared(rows: Rows, row: Template) {
    NoGapBelow(rows, row) && ParentIsOlder(rows, row) && FlagAgrees(row) && (row.isPublished <==> row.version == 1)
  }

  // ---- Rows are immutable apart from their lifecycle columns ----

  predicate Frozen(a: Template, b: Template) {
    a.(status := b.status, isPublished := b.isPublished, publishedBy := b.publishedBy, usage := b.usage) == b
  }

  /** No row disappears, moves or changes its identity, text, variables or parent. */
  ghost predicate Extends(earlier: Rows, later: Rows) {
    |earlier| <= |later| && forall i :: 0 <= i < |earlier| ==> Frozen(earlier[i], later[i])
  }

  lemma ExtendsKeepsFacts(a: Rows, b: Rows)
    requires Extends(a, b)
    ensures forall p, v :: Has(a, p, v) ==> Has(b, p, v)
    ensures forall r :: NoGapBelow(a, r) ==> NoGapBelow(b, r)
    ensures forall r :: ParentIsOlder(a, r) ==> ParentIsOlder(b, r)
    ensures forall r :: Prepared(a, r) ==> Prepared(b, r)
  {
  }

  /** Changing only lifecycle columns keeps every invariant about identity, versions and lineage. */
  lemma FrozenKeepsStructure(a: Rows, b: Rows)
    requires UniqueIds(a) && UniqueVersions(a) && Contiguous(a) && Lineaged(a)
    requires Extends(a, b) && |a| == |b|
    ensures UniqueIds(b) && UniqueVersions(b) && Contiguous(b) && Lineaged(b)
  {
  }

  lemma {:induction false} VersionsReachDown(rows: Rows, p: PromptKey, v: nat, u: nat)
    requires Contiguous(rows) && Has(rows, p, v) && 1 <= u <= v
    ensures Has(rows, p, u)
    decreases v
  {
    if u < v {
      var i :| 0 <= i < |rows| && Is(rows[i], p, v);
      assert NoGapBelow(rows, rows[i]);
      VersionsReachDown(rows, p, v - 1, u);
    }
  }

  /** The versions of a prompt are exactly 1 to its latest. */
  lemma VersionsAreExact(rows: Rows, p: PromptKey, v: nat)
    requires Contiguous(rows)
    ensures Has(rows, p, v) <==> 1 <= v <= Latest(rows, p)
  {
    if Has(rows, p, v) {
      var i :| 0 <= i < |rows| && Is(rows[i], p, v);
      assert NoGapBelow(rows, rows[i]);
    }
    if 1 <= v <= Latest(rows, p) {
      VersionsReachDown(rows, p, Latest(rows, p), v);
    }
  }

  /** A prepared row is refused exactly when its id is taken or another transaction took its number first. */
  lemma RefusedIffOvertaken(rows: Rows, row: Template)
    requires Contiguous(rows) && Prepared(rows, row)
    ensures Clashes(rows, row) <==> FindId(rows, row.id).Some? || row.version <= Latest(rows, row.prompt)
    ensures !Clashes(rows, row) ==> row.version == Latest(rows, row.prompt) + 1
  {
    VersionsAreExact(rows, row.prompt, row.version);
    if row.version > 1 {
      VersionsAreExact(rows, row.prompt, row.version - 1);
    }
    assert FindVersion(rows, row.prompt, row.version).Some? <==> Has(rows, row.prompt, row.version);
  }

  lemma InsertKeepsStructure(rows: Rows, row: Template)
    requires RowsInv(rows) && Prepared(rows, row)
    ensures Extends(rows, Insert(rows, row))
    ensures var r := Insert(rows, row); UniqueIds(r) && UniqueVersions(r) && Contiguous(r) && Lineaged(r)
  {
    var r := Insert(rows, row);
    ExtendsKeepsFacts(rows, r);
    forall i | 0 <= i < |r| ensures NoGapBelow(r, r[i]) && ParentIsOlder(r, r[i]) {
      assert i < |rows| ==> NoGapBelow(rows, r[i]) && ParentIsOlder(rows, r[i]);
    }
    assert !Clashes(rows, row) ==> forall i :: 0 <= i < |rows| ==> !Is(rows[i], row.prompt, row.version);
  }

  lemma InsertKeepsOnePublished(rows: Rows, row: Template)
    requires RowsInv(rows) && Prepared(rows, row)
    ensures OnePublished(Insert(rows, row))
  {
    if !Clashes(rows, row) && row.isPublished {
      forall i | 0 <= i < |rows| ensures rows[i].prompt != row.prompt {
        RefusedIffOvertaken(rows, row);
        assert NoGapBelow(rows, rows[i]);
      }
    }
  }

  lemma InsertKeepsInv(rows: Rows, row: Template)
    requires RowsInv(rows) && Prepared(rows, row)
    ensures RowsInv(Insert(rows, row)) && Extends(rows, Insert(rows, row))
  {
    InsertKeepsStructure(rows, row);
    InsertKeepsOnePublished(rows, row);
  }

  lemma ReleaseKeepsInv(rows: Rows, p: PromptKey, v: nat, user: string)
    requires RowsInv(rows)
    ensures RowsInv(Release(rows, p, v, user)) && Extends(rows, Release(rows, p, v, user))
  {
    var r := Release(rows, p, v, user);
    FrozenKeepsStructure(rows, r);
    forall i, j | 0 <= i < j < |r| && r[i].isPublished && r[j].isPublished ensures r[i].prompt != r[j].prompt {
      assert !Is(rows[i], rows[j].prompt, rows[j].version);
    }
  }

  lemma CountUseKeepsInv(rows: Rows, id: string)
    requires RowsInv(rows)
    ensures RowsInv(CountUse(rows, id)) && Extends(rows, CountUse(rows, id))
  {
    FrozenKeepsStructure(rows, CountUse(rows, id));
  }

  lemma CreatedIsPrepared(rows: Rows, id: string, p: PromptKey, request: Request, user: string)
    ensures Prepared(rows, Created(rows, id, p, request, user))
  {
  }

  lemma UpdatedIsPrepared(rows: Rows, id: string, k: nat, request: Request, user: string)
    requires k < |rows| && Contiguous(rows)
    ensures Prepared(rows, Updated(rows, id, rows[k], request, user))
  {
  }

  // ---- Lineage ----

  lemma ParentFound(rows: Rows, i: nat)
    requires i < |rows| && UniqueIds(rows) && Lineaged(rows) && rows[i].parent.Some?
    ensures var k := FindId(rows, rows[i].parent.value);
      k.Some? && rows[k.value].prompt == rows[i].prompt && rows[k.value].version < rows[i].version
  {
  }

  /** The rows met when walking parent links from row i. */
  ghost function Lineage(rows: Rows, i: nat): (walk: seq<nat>)
    requires i < |rows| && UniqueIds(rows) && Lineaged(rows)
    ensures walk != [] && walk[0] == i
    decreases rows[i].version
  {
    if rows[i].parent == None then [i]
    else
      ParentFound(rows, i);
      [i] + Lineage(rows, FindId(rows, rows[i].parent.value).value)
  }

  ghost predicate IsParentStep(rows: Rows, i: nat, j: nat) {
    i < |rows| && j < |rows| && rows[i].parent == Some(rows[j].id)
    && rows[j].prompt == rows[i].prompt && rows[j].version < rows[i].version
  }

  /** A walk along parent links stays within its prompt, goes strictly down in version and ends at a parentless row. */
  lemma {:induction false} LineageEndsAtRoot(rows: Rows, i: nat)
    requires i < |rows| && UniqueIds(rows) && Lineaged(rows)
    ensures var walk := Lineage(rows, i);
      && |walk| <= rows[i].version + 1
      && (forall k :: 0 <= k < |walk| - 1 ==> IsParentStep(rows, walk[k], walk[k + 1]))
      && walk[|walk| - 1] < |rows| && rows[walk[|walk| - 1]].parent == None
    decreases rows[i].version
  {
    if rows[i].parent.Some? {
      ParentFound(rows, i);
      var j := FindId(rows, rows[i].parent.value).value;
      LineageEndsAtRoot(rows, j);
      var walk, rest := Lineage(rows, i), Lineage(rows, j);
      assert walk == [i] + rest;
      assert IsParentStep(rows, i, j);
      assert forall k :: 0 < k < |walk| ==> walk[k] == rest[k - 1];
    }
  }
}

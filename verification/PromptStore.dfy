/**
 * The prompt service: versions are allocated by transactions that read the highest version and insert later, one
 * version of a prompt is published at a time, and a rollback publishes an earlier one again.
 */
module PromptStore {
  import opened PromptRows
  import opened TemplateEngine
  import opened Wrappers

  // ---- Interleaved transactions ----

  /** The committed table and, for each open transaction, the row it has prepared from what it read. */
  datatype Db = Db(rows: Rows, pending: map<nat, Template>)

  datatype Op =
    | BeginCreate(tx: nat, newId: string, prompt: PromptKey, request: Request, user: string)
    | BeginUpdate(tx: nat, newId: string, source: string, request: Request, user: string)
    | Commit(tx: nat)
    | Publish(id: string, user: string)
    | Rollback(prompt: PromptKey, version: nat, user: string)
    | Use(id: string)

  function Apply(db: Db, op: Op): Db {
    match op
    case BeginCreate(tx, newId, p, request, user) =>
      db.(pending := db.pending[tx := Created(db.rows, newId, p, request, user)])
    case BeginUpdate(tx, newId, source, request, user) =>
      var k := FindId(db.rows, source);
      if k.None? then db else db.(pending := db.pending[tx := Updated(db.rows, newId, db.rows[k.value], request, user)])
    case Commit(tx) =>
      if tx in db.pending then Db(Insert(db.rows, db.pending[tx]), db.pending - {tx}) else db
    case Publish(id, user) =>
      var k := FindId(db.rows, id);
      if k.None? then db
      else db.(rows := Release(db.rows, db.rows[k.value].prompt, db.rows[k.value].version, user))
    case Rollback(p, version, user) =>
      db.(rows := Release(db.rows, p, version, user))
    case Use(id) =>
      db.(rows := CountUse(db.rows, id))
  }

  const EMPTY := Db([], map[])

  function Last(h: seq<Op>): Op
    requires h != []
  {
    h[|h| - 1]
  }

  function Init(h: seq<Op>): seq<Op>
    requires h != []
  {
    h[..|h| - 1]
  }

  /** The database after a history, oldest operation first. */
  function Run(h: seq<Op>): Db {
    if h == [] then EMPTY else Apply(Run(Init(h)), Last(h))
  }

  ghost predicate Inv(db: Db) {
    RowsInv(db.rows) && forall tx :: tx in db.pending ==> Prepared(db.rows, db.pending[tx])
  }

  lemma StepKeepsRows(db: Db, op: Op)
    requires Inv(db)
    ensures RowsInv(Apply(db, op).rows) && Extends(db.rows, Apply(db, op).rows)
  {
    match op {
      case Commit(tx) =>
        if tx in db.pending {
          InsertKeepsInv(db.rows, db.pending[tx]);
        }
      case Publish(id, user) =>
        var k := FindId(db.rows, id);
        if k.Some? {
          ReleaseKeepsInv(db.rows, db.rows[k.value].prompt, db.rows[k.value].version, user);
        }
      case Rollback(p, version, user) =>
        ReleaseKeepsInv(db.rows, p, version, user);
      case Use(id) =>
        CountUseKeepsInv(db.rows, id);
      case _ =>
    }
  }

  lemma StepPrepares(db: Db, op: Op, tx: nat)
    requires Contiguous(db.rows) && forall t :: t in db.pending ==> Prepared(db.rows, db.pending[t])
    requires tx in Apply(db, op).pending
    ensures Prepared(db.rows, Apply(db, op).pending[tx])
  {
  }

  lemma StepKeepsInv(db: Db, op: Op)
    requires Inv(db)
    ensures Inv(Apply(db, op)) && Extends(db.rows, Apply(db, op).rows)
  {
    var next := Apply(db, op);
    StepKeepsRows(db, op);
    forall tx | tx in next.pending ensures Prepared(next.rows, next.pending[tx]) {
      StepPrepares(db, op, tx);
      ExtendsKeepsFacts(db.rows, next.rows);
    }
  }

  lemma {:induction false} RunKeepsInv(h: seq<Op>)
    ensures Inv(Run(h))
  {
    if h != [] {
      RunKeepsInv(Init(h));
      StepKeepsInv(Run(Init(h)), Last(h));
    }
  }

  /**
   * Under every interleaving the committed versions of a prompt are exactly 1 to its latest, each in one row, and a
   * waiting insert succeeds only as the next number.
   */
  lemma CommittedVersionsAreExact(h: seq<Op>, p: PromptKey, v: nat)
    ensures Has(Run(h).rows, p, v) <==> 1 <= v <= Latest(Run(h).rows, p)
    ensures UniqueVersions(Run(h).rows)
    ensures forall tx :: tx in Run(h).pending ==>
      var row := Run(h).pending[tx];
      Clashes(Run(h).rows, row) <==> FindId(Run(h).rows, row.id).Some? || row.version != Latest(Run(h).rows, row.prompt) + 1
  {
    RunKeepsInv(h);
    VersionsAreExact(Run(h).rows, p, v);
    forall tx | tx in Run(h).pending
      ensures var row := Run(h).pending[tx];
        Clashes(Run(h).rows, row) <==> FindId(Run(h).rows, row.id).Some? || row.version != Latest(Run(h).rows, row.prompt) + 1
    {
      RefusedIffOvertaken(Run(h).rows, Run(h).pending[tx]);
    }
  }

  // ---- What is published ----

  /** Exactly the rows carrying the given version, if any, are published. */
  ghost predicate PublishedIs(rows: Rows, p: PromptKey, v: Option<nat>) {
    && (v.Some? ==> Has(rows, p, v.value))
    && forall i :: 0 <= i < |rows| && rows[i].prompt == p ==> (rows[i].isPublished <==> Some(rows[i].version) == v)
  }

  /** The version an operation leaves published, given the one before it. */
  function ReleasedBy(db: Db, op: Op, p: PromptKey, before: Option<nat>): Option<nat> {
    match op
    case Commit(tx) =>
      if tx in db.pending && db.pending[tx].prompt == p && db.pending[tx].version == 1 && !Clashes(db.rows, db.pending[tx])
      then Some(1) else before
    case Publish(id, _) =>
      var k := FindId(db.rows, id);
      if k.Some? && db.rows[k.value].prompt == p then Some(db.rows[k.value].version) else before
    case Rollback(q, version, _) =>
      if q != p then before
      else if FindVersion(db.rows, p, version).Some? then Some(version) else None
    case _ => before
  }

  /** Whether the last publish or rollback of the existing prompt was a rollback naming a version it does not have. */
  function MissedBy(db: Db, op: Op, p: PromptKey, before: bool): bool {
    match op
    case Publish(id, _) =>
      var k := FindId(db.rows, id);
      before && !(k.Some? && db.rows[k.value].prompt == p)
    case Rollback(q, version, _) =>
      if q == p && Latest(db.rows, p) > 0 then FindVersion(db.rows, p, version).None? else before
    case _ => before
  }

  function Released(h: seq<Op>, p: PromptKey): Option<nat> {
    if h == [] then None else ReleasedBy(Run(Init(h)), Last(h), p, Released(Init(h), p))
  }

  function Missed(h: seq<Op>, p: PromptKey): bool {
    h != [] && MissedBy(Run(Init(h)), Last(h), p, Missed(Init(h), p))
  }

  lemma ReleasePublishes(rows: Rows, p: PromptKey, v: nat, user: string, q: PromptKey, before: Option<nat>)
    requires PublishedIs(rows, q, before)
    ensures PublishedIs(Release(rows, p, v, user), q,
                        if p != q then before else if FindVersion(rows, p, v).Some? then Some(v) else None)
  {
  }

  lemma InsertPublishes(rows: Rows, row: Template, p: PromptKey, before: Option<nat>)
    requires Contiguous(rows) && Prepared(rows, row) && PublishedIs(rows, p, before)
    ensures PublishedIs(Insert(rows, row), p,
                        if row.prompt == p && row.version == 1 && !Clashes(rows, row) then Some(1) else before)
  {
    var r := Insert(rows, row);
    assert Extends(rows, r);
    ExtendsKeepsFacts(rows, r);
    if row.prompt == p && !Clashes(rows, row) {
      assert !Has(rows, p, row.version) && (row.version == 1 ==> Latest(rows, p) == 0) by {
        RefusedIffOvertaken(rows, row);
      }
      assert Is(r[|rows|], p, row.version);
      if row.version == 1 {
        assert forall i :: 0 <= i < |rows| ==> NoGapBelow(rows, rows[i]);
      }
    }
  }

  lemma CountUsePublishes(rows: Rows, id: string, p: PromptKey, before: Option<nat>)
    requires PublishedIs(rows, p, before)
    ensures PublishedIs(CountUse(rows, id), p, before)
  {
  }

  lemma StepPublishes(db: Db, op: Op, p: PromptKey, before: Option<nat>)
    requires Contiguous(db.rows) && PublishedIs(db.rows, p, before)
    requires forall tx :: tx in db.pending ==> Prepared(db.rows, db.pending[tx])
    ensures PublishedIs(Apply(db, op).rows, p, ReleasedBy(db, op, p, before))
  {
    match op {
      case Commit(tx) =>
        if tx in db.pending {
          InsertPublishes(db.rows, db.pending[tx], p, before);
        }
      case Publish(id, user) =>
        var k := FindId(db.rows, id);
        if k.Some? {
          var row := db.rows[k.value];
          assert Is(row, row.prompt, row.version);
          ReleasePublishes(db.rows, row.prompt, row.version, user, p, before);
        }
      case Rollback(q, version, user) =>
        ReleasePublishes(db.rows, q, version, user, p, before);
      case Use(id) =>
        CountUsePublishes(db.rows, id, p, before);
      case _ =>
    }
  }

  /** In every reachable state the published row of a prompt, if any, is the one its history last released. */
  lemma {:induction false} PublishedFollowsHistory(h: seq<Op>, p: PromptKey)
    ensures PublishedIs(Run(h).rows, p, Released(h, p))
  {
    if h != [] {
      PublishedFollowsHistory(Init(h), p);
      RunKeepsInv(Init(h));
      StepPublishes(Run(Init(h)), Last(h), p, Released(Init(h), p));
    }
  }

  lemma LatestGrows(earlier: Rows, later: Rows, p: PromptKey)
    requires Extends(earlier, later)
    ensures Latest(later, p) >= Latest(earlier, p)
    ensures |earlier| == |later| ==> Latest(later, p) == Latest(earlier, p)
  {
  }

  lemma InsertStarts(rows: Rows, row: Template, p: PromptKey)
    requires Contiguous(rows) && Prepared(rows, row)
    ensures row.prompt == p && row.version == 1 && !Clashes(rows, row) ==>
      Latest(rows, p) == 0 && Latest(Insert(rows, row), p) > 0
    ensures !(row.prompt == p && row.version == 1 && !Clashes(rows, row)) ==>
      (Latest(rows, p) > 0 <==> Latest(Insert(rows, row), p) > 0)
  {
    var after := Insert(rows, row);
    assert !Clashes(rows, row) ==> row.version == Latest(rows, row.prompt) + 1 by {
      RefusedIffOvertaken(rows, row);
    }
    assert Latest(after, p) >= Latest(rows, p) by {
      LatestGrows(rows, after, p);
    }
    if !Clashes(rows, row) {
      assert after[|rows|] == row;
      if row.prompt != p && Latest(after, p) > 0 {
        var i :| 0 <= i < |after| && Is(after[i], p, Latest(after, p));
        assert after[i] == rows[i];
      }
    }
  }

  /** A publish that finds its row, or a rollback that finds its version, concerns a prompt that has versions. */
  lemma NamesExisting(rows: Rows, op: Op, p: PromptKey)
    requires Contiguous(rows)
    ensures op.Publish? && FindId(rows, op.id).Some? && rows[FindId(rows, op.id).value].prompt == p ==> Latest(rows, p) > 0
    ensures op.Rollback? && FindVersion(rows, p, op.version).Some? ==> Latest(rows, p) > 0
  {
  }

  lemma UnlessCommitRowsStay(db: Db, op: Op)
    requires !op.Commit?
    ensures |Apply(db, op).rows| == |db.rows| && Extends(db.rows, Apply(db, op).rows)
  {
  }

  lemma LatestUnlessCommit(db: Db, op: Op, p: PromptKey)
    requires !op.Commit?
    ensures Latest(Apply(db, op).rows, p) == Latest(db.rows, p)
  {
    UnlessCommitRowsStay(db, op);
    LatestGrows(db.rows, Apply(db, op).rows, p);
  }

  lemma StepReleasesIffNotMissed(db: Db, op: Op, p: PromptKey, before: Option<nat>, missed: bool)
    requires Contiguous(db.rows) && forall tx :: tx in db.pending ==> Prepared(db.rows, db.pending[tx])
    requires before.Some? <==> Latest(db.rows, p) > 0 && !missed
    requires Latest(db.rows, p) == 0 ==> !missed
    ensures var latest := Latest(Apply(db, op).rows, p);
      && (ReleasedBy(db, op, p, before).Some? <==> latest > 0 && !MissedBy(db, op, p, missed))
      && (latest == 0 ==> !MissedBy(db, op, p, missed))
  {
    if op.Commit? {
      if op.tx in db.pending {
        InsertStarts(db.rows, db.pending[op.tx], p);
      }
    } else {
      LatestUnlessCommit(db, op, p);
      NamesExisting(db.rows, op, p);
    }
  }

  lemma {:induction false} ReleasedIffNotMissed(h: seq<Op>, p: PromptKey)
    ensures Released(h, p).Some? <==> Latest(Run(h).rows, p) > 0 && !Missed(h, p)
    ensures Latest(Run(h).rows, p) == 0 ==> !Missed(h, p)
  {
    if h != [] {
      ReleasedIffNotMissed(Init(h), p);
      RunKeepsInv(Init(h));
      StepReleasesIffNotMissed(Run(Init(h)), Last(h), p, Released(Init(h), p), Missed(Init(h), p));
    }
  }

  /**
   * From version 1 onward exactly one row of a prompt carries the published flag, except after a rollback that named a
   * missing version.
   */
  lemma PublishedIffNotMissed(h: seq<Op>, p: PromptKey)
    ensures var rows := Run(h).rows;
      && ((exists i :: 0 <= i < |rows| && rows[i].prompt == p && rows[i].isPublished) <==> Latest(rows, p) > 0 && !Missed(h, p))
      && (forall i, j :: 0 <= i < j < |rows| && rows[i].prompt == p && rows[i].isPublished && rows[j].isPublished ==>
            rows[j].prompt != p)
  {
    var rows := Run(h).rows;
    PublishedFollowsHistory(h, p);
    ReleasedIffNotMissed(h, p);
    RunKeepsInv(h);
    if Released(h, p).Some? {
      var i :| 0 <= i < |rows| && Is(rows[i], p, Released(h, p).value);
      assert rows[i].prompt == p && rows[i].isPublished;
    }
  }

  /** For instance, after a prompt is created, a rollback to version 2 leaves its only version archived. */
  lemma RollbackToMissingUnpublishes(newId: string, p: PromptKey, request: Request, user: string)
    ensures var rows := Run([BeginCreate(0, newId, p, request, user), Commit(0), Rollback(p, 2, user)]).rows;
      && Latest(rows, p) == |rows| == 1
      && rows[0] == Created([], newId, p, request, user).(status := Archived, isPublished := false)
  {
    var h := [BeginCreate(0, newId, p, request, user), Commit(0), Rollback(p, 2, user)];
    var row := Created([], newId, p, request, user);
    assert Init(Init(h)) == [h[0]] && Init([h[0]]) == [] && Last(Init(h)) == Commit(0);
    assert Run([h[0]]) == Db([], map[0 := row]);
    assert Run(Init(h)).rows == [row];
    assert Run(h).rows == Release([row], p, 2, user);
  }

  // ---- Immutability and rollback ----

  lemma {:induction false} HistoryExtends(h: seq<Op>, more: seq<Op>)
    ensures Extends(Run(h).rows, Run(h + more).rows)
  {
    if more == [] {
      assert h + more == h;
    } else {
      HistoryExtends(h, Init(more));
      assert Init(h + more) == h + Init(more) && Last(h + more) == Last(more);
      RunKeepsInv(h + Init(more));
      StepKeepsInv(Run(h + Init(more)), Last(more));
      assert forall i :: 0 <= i < |Run(h).rows| ==> Frozen(Run(h).rows[i], Run(h + Init(more)).rows[i]);
    }
  }

  function FindPublished(rows: Rows, p: PromptKey): (r: Option<nat>)
    ensures r.Some? ==> r.value < |rows| && rows[r.value].prompt == p && rows[r.value].isPublished
    ensures r.None? ==> forall i :: 0 <= i < |rows| && rows[i].prompt == p ==> !rows[i].isPublished
  {
    if rows == [] then None
    else if rows[0].prompt == p && rows[0].isPublished then Some(0)
    else
      var k := FindPublished(rows[1..], p);
      assert forall i :: 0 < i < |rows| ==> rows[i] == rows[1..][i - 1];
      if k.Some? then Some(k.value + 1) else None
  }

  /** get_prompt: an explicit version, or the published one. */
  function Lookup(rows: Rows, p: PromptKey, version: Option<nat>): (r: Option<nat>)
    ensures r.Some? ==> r.value < |rows|
  {
    if version.Some? then FindVersion(rows, p, version.value) else FindPublished(rows, p)
  }

  function RenderRow(row: Template, args: Args): Result<string, RenderError> {
    CallRender(row.content, row.variables, args)
  }

  /**
   * However a history continues, rolling back to a version that existed makes the default lookup answer with that very
   * row, so default rendering agrees with every earlier rendering of the version.
   */
  lemma RollbackRestores(h: seq<Op>, more: seq<Op>, p: PromptKey, version: nat, user: string, args: Args)
    requires Lookup(Run(h).rows, p, Some(version)).Some?
    ensures var now := Run(h + more + [Rollback(p, version, user)]).rows;
      && Lookup(now, p, None) == Lookup(Run(h).rows, p, Some(version))
      && RenderRow(now[Lookup(now, p, None).value], args)
         == RenderRow(Run(h).rows[Lookup(Run(h).rows, p, Some(version)).value], args)
  {
    var full := h + more + [Rollback(p, version, user)];
    var rows, now := Run(h).rows, Run(full).rows;
    var k := FindVersion(rows, p, version).value;
    assert full == h + (more + [Rollback(p, version, user)]);
    HistoryExtends(h, more + [Rollback(p, version, user)]);
    assert Frozen(rows[k], now[k]);
    assert Init(full) == h + more && Last(full) == Rollback(p, version, user);
    HistoryExtends(h, more);
    assert Frozen(rows[k], Run(h + more).rows[k]) && Is(Run(h + more).rows[k], p, version);
    RunKeepsInv(full);
    PublishedFollowsHistory(full, p);
    assert Is(now[k], p, version) && now[k].isPublished;
    var j := FindPublished(now, p).value;
    assert now[j].isPublished && now[k].isPublished && now[j].prompt == now[k].prompt;
  }

  // ---- Variables of new versions ----

  /** Declared variables are stored as declared: a created or updated version renders by exactly their definitions. */
  lemma DeclaredVariablesRender(rows: Rows, id: string, p: PromptKey, source: Template, request: Request, user: string, args: Args)
    requires request.variables != []
    ensures RenderRow(Created(rows, id, p, request, user), args) == CallRender(request.content, request.variables, args)
    ensures RenderRow(Updated(rows, id, source, request, user), args) == CallRender(request.content, request.variables, args)
  {
  }

  /** Without declared variables those of the text are required, without defaults; an update of plain text keeps the old ones. */
  lemma UndeclaredVariablesRender(rows: Rows, id: string, p: PromptKey, source: Template, request: Request, user: string, args: Args)
    requires request.variables == []
    ensures RenderRow(Created(rows, id, p, request, user), args)
         == CallRender(request.content, AutoDefs(Detected(request.content)), args)
    ensures RenderRow(Updated(rows, id, source, request, user), args)
         == CallRender(request.content, if Detected(request.content) != [] then AutoDefs(Detected(request.content))
                                        else source.variables, args)
  {
    assert AutoDefs([]) == [];
  }

  lemma OneGreeting(before: string, def: VarDef, args: Args, value: string)
    requires Safe(before) && BraceFree(def.name) && SELF !in args
    requires if def.name in args then args[def.name] == Some(value) else def.default == Some(value)
    ensures CallRender(before + Pattern(def.name), [def], args) == Success(before + value)
  {
    var ts := [Lit(before), Slot(def.name)];
    assert ts[1..] == [Slot(def.name)] && ts[1..][1..] == [];
    assert Flatten(ts[1..]) == Pattern(def.name) + "" == Pattern(def.name);
    OneVariableRenders(ts, def, args);
    var filled := Fill(ts, def.name, value);
    assert filled == [Lit(before), Lit(value)] && filled[1..] == [Lit(value)] && filled[1..][1..] == [];
    assert Flatten(filled[1..]) == value + "" == value;
  }

  /** For instance, "Hello {{name}}" with an optional name and a default greets by default, and by name if one is given. */
  lemma DefaultGreets(rows: Rows, id: string, p: PromptKey, user: string)
    ensures var request := Request("Hello " + Pattern("name"), None, [VarDef("name", false, Some("you"))]);
      var row := Created(rows, id, p, request, user);
      && RenderRow(row, map[]) == Success("Hello you")
      && RenderRow(row, map["name" := Some("Ada")]) == Success("Hello Ada")
  {
    var def := VarDef("name", false, Some("you"));
    var request := Request("Hello " + Pattern("name"), None, [def]);
    DeclaredVariablesRender(rows, id, p, Created(rows, id, p, request, user), request, user, map[]);
    DeclaredVariablesRender(rows, id, p, Created(rows, id, p, request, user), request, user, map["name" := Some("Ada")]);
    assert "Hello " + "you" == "Hello you" && "Hello " + "Ada" == "Hello Ada";
    OneGreeting("Hello ", def, map[], "you");
    OneGreeting("Hello ", def, map["name" := Some("Ada")], "Ada");
  }

  /**
   * A prompt created without declared variables, given a safe value for every detected name, renders exactly when no
   * argument is named self, and then leaves only the placeholders written with inner blanks.
   */
  lemma AutoCreatedRenders(rows: Rows, id: string, p: PromptKey, ts: seq<Token>, system: Option<string>, user: string,
                           args: Args)
    requires WellFormed(ts) && AllGivenSafely(Detected(Flatten(ts)), args)
    ensures var rendered := RenderRow(Created(rows, id, p, Request(Flatten(ts), system, []), user), args);
      && (rendered.Success? <==> SELF !in args)
      && (rendered.Success? ==> FindAll(rendered.value) == Padded(FindAll(Flatten(ts))))
  {
    AutoDetectedRenderLeavesOnlyPadded(ts, args);
    assert AutoDefs([]) == [];
  }

  /**
   * An update whose text has no placeholder inherits the variables of its source, so its rendering still fails exactly
   * when one that the source requires is not given, or an argument is named self.
   */
  lemma PlainUpdateKeepsRequirements(rows: Rows, id: string, source: Template, request: Request, user: string, args: Args)
    requires request.variables == [] && Detected(request.content) == []
    ensures RenderRow(Updated(rows, id, source, request, user), args).Failure?
       <==> SELF in args || exists def :: def in source.variables && def.required && ValueOf(def, args) == None
  {
    CallFailsIff(request.content, source.variables, args);
  }

  lemma NothingDetected(text: string)
    requires Safe(text)
    ensures Detected(text) == []
  {
    FindSkipsSafe(text, "");
    assert text + "" == text;
  }

  /** For instance, an update to "Hello everyone" of a prompt that requires a name still requires the name. */
  lemma PlainUpdateStillNeedsName(p: PromptKey, user: string)
    ensures var source := Created([], "1", p, Request("Hello {{name}}", None, [VarDef("name", true, None)]), user);
      var updated := Updated([source], "2", source, Request("Hello everyone", None, []), user);
      RenderRow(updated, map[]) == Failure(MissingVariable("name"))
  {
    NothingDetected("Hello everyone");
  }

  lemma VersionFoundAt(rows: Rows, k: nat)
    requires k < |rows| && UniqueVersions(rows)
    ensures FindVersion(rows, rows[k].prompt, rows[k].version) == Some(k)
  {
  }

  // ---- The service ----

  lemma UpdateCommits(rows: Rows, newId: string, source: string, request: Request, user: string)
    requires FindId(rows, source).Some?
    ensures var row := Updated(rows, newId, rows[FindId(rows, source).value], request, user);
      Apply(Apply(Db(rows, map[]), BeginUpdate(0, newId, source, request, user)), Commit(0)) == Db(Insert(rows, row), map[])
  {
    var row := Updated(rows, newId, rows[FindId(rows, source).value], request, user);
    assert map[0 := row] - {0} == map[];
  }

  /** Declared variables, else those of the text, else the inherited ones. */
  method ChooseVariables(request: Request, inherited: seq<VarDef>) returns (variables: seq<VarDef>)
    ensures variables == NewVariables(request, inherited)
    ensures request.variables != [] ==> variables == request.variables
    ensures request.variables == [] && Detected(request.content) != [] ==> variables == AutoDefs(Detected(request.content))
    ensures request.variables == [] && Detected(request.content) == [] ==> variables == inherited
  {
    if request.variables != [] {
      return request.variables;
    }
    var detected := ExtractVariables(request.content);
    if detected == [] {
      return inherited;
    }
    variables := [];
    for i := 0 to |detected|
      invariant variables == AutoDefs(detected[..i])
    {
      variables := variables + [VarDef(detected[i], true, None)];
    }
    assert detected[..|detected|] == detected;
  }

  datatype DbError = IntegrityError | MultipleResults

  class PromptService {
    var rows: Rows

    ghost predicate Valid()
      reads this
    {
      RowsInv(rows)
    }

    constructor ()
      ensures Valid() && rows == EMPTY.rows
    {
      rows := [];
    }

    /** repo.create and commit: the database refuses a row that breaks a uniqueness constraint. */
    method InsertRow(row: Template) returns (r: Result<Template, DbError>)
      requires Valid() && Prepared(rows, row)
      modifies this
      ensures Valid() && rows == Insert(old(rows), row)
      ensures r == if Clashes(old(rows), row) then Failure(IntegrityError) else Success(row)
    {
      InsertKeepsInv(rows, row);
      if Clashes(rows, row) {
        return Failure(IntegrityError);
      }
      rows := rows + [row];
      return Success(row);
    }

    method CreatePrompt(newId: string, p: PromptKey, request: Request, user: string)
      returns (r: Result<Template, DbError>)
      requires Valid()
      modifies this
      ensures Valid()
      ensures Db(rows, map[]) == Apply(Apply(Db(old(rows), map[]), BeginCreate(0, newId, p, request, user)), Commit(0))
      ensures r.Failure? <==> FindId(old(rows), newId).Some?
      ensures r.Success? ==> rows == old(rows) + [r.value] && r.value.version == Latest(old(rows), p) + 1
      ensures r.Success? ==> (r.value.isPublished <==> Latest(old(rows), p) == 0)
      ensures r.Success? ==>
        && r.value.id == newId && r.value.prompt == p && r.value.parent == None && r.value.createdBy == user
        && r.value.content == request.content && r.value.systemMessage == request.systemMessage && r.value.usage == 0
        && r.value.status == (if r.value.version == 1 then Published else Draft)
        && r.value.publishedBy == (if r.value.version == 1 then Some(user) else None)
      ensures r.Success? && request.variables != [] ==> r.value.variables == request.variables
      ensures r.Success? && request.variables == [] ==> r.value.variables == AutoDefs(Detected(request.content))
    {
      var version := Latest(rows, p) + 1;
      var variables := ChooseVariables(request, []);
      var row := Template(newId, p, version, request.content, request.systemMessage, variables, None, user,
                          Draft, false, None, 0);
      if version == 1 {
        row := row.(isPublished := true, status := Published, publishedBy := Some(user));
      }
      assert row == Created(rows, newId, p, request, user);
      CreatedIsPrepared(rows, newId, p, request, user);
      RefusedIffOvertaken(rows, row);
      r := InsertRow(row);
      assert map[0 := row] - {0} == map[];
    }

    method UpdatePrompt(newId: string, source: string, request: Request, user: string)
      returns (r: Result<Option<Template>, DbError>)
      requires Valid()
      modifies this
      ensures Valid()
      ensures Db(rows, map[]) == Apply(Apply(Db(old(rows), map[]), BeginUpdate(0, newId, source, request, user)), Commit(0))
      ensures r == Success(None) <==> FindId(old(rows), source).None?
      ensures r.Success? && r.value.Some? ==>
        && rows == old(rows) + [r.value.value] && !r.value.value.isPublished && r.value.value.parent == Some(source)
        && r.value.value.version == Latest(old(rows), r.value.value.prompt) + 1
        && r.value.value.id == newId && r.value.value.content == request.content && r.value.value.createdBy == user
        && r.value.value.prompt == old(rows)[FindId(old(rows), source).value].prompt
        && r.value.value.status == Draft && r.value.value.publishedBy == None && r.value.value.usage == 0
      ensures r.Success? && r.value.Some? ==>
        var original := old(rows)[FindId(old(rows), source).value];
        && r.value.value.systemMessage == (if request.systemMessage.Some? then request.systemMessage else original.systemMessage)
        && r.value.value.variables == (if request.variables != [] then request.variables
                                       else if Detected(request.content) != [] then AutoDefs(Detected(request.content))
                                       else original.variables)
    {
      var k := FindId(rows, source);
      if k.None? {
        return Success(None);
      }
      var original := rows[k.value];
      var variables := ChooseVariables(request, original.variables);
      var system := if request.systemMessage.Some? then request.systemMessage else original.systemMessage;
      var row := Template(newId, original.prompt, Latest(rows, original.prompt) + 1, request.content, system, variables,
                          Some(original.id), user, Draft, false, None, 0);
      assert row == Updated(rows, newId, original, request, user);
      UpdatedIsPrepared(rows, newId, k.value, request, user);
      RefusedIffOvertaken(rows, row);
      UpdateCommits(rows, newId, source, request, user);
      var saved := InsertRow(row);
      if saved.Failure? {
        return Failure(saved.error);
      }
      return Success(Some(saved.value));
    }

    /** First archive every version, then look for the target and publish it. */
    method UpdatePublishedStatus(p: PromptKey, version: nat, user: string) returns (r: Option<Template>)
      requires Valid()
      modifies this
      ensures Valid() && rows == Release(old(rows), p, version, user)
      ensures var k := FindVersion(old(rows), p, version);
        r == if k.None? then None else Some(rows[k.value])
      ensures r.Some? ==> r.value.isPublished && r.value.status == Published && r.value.publishedBy == Some(user)
    {
      ReleaseKeepsInv(rows, p, version, user);
      var target := FindVersion(rows, p, version);
      ghost var before := rows;
      rows := seq(|rows|, i requires 0 <= i < |rows| reads this =>
        if rows[i].prompt == p then rows[i].(status := Archived, isPublished := false) else rows[i]);
      if target.None? {
        assert forall i :: 0 <= i < |before| ==> !Is(before[i], p, version);
        assert rows == Release(before, p, version, user);
        return None;
      }
      var k := target.value;
      rows := rows[k := rows[k].(status := Published, isPublished := true, publishedBy := Some(user))];
      assert forall i :: 0 <= i < |before| && i != k ==> !Is(before[i], p, version);
      assert rows == Release(before, p, version, user);
      return Some(rows[k]);
    }

    method Publish(id: string, user: string) returns (r: Option<Template>)
      requires Valid()
      modifies this
      ensures Valid() && Db(rows, map[]) == Apply(Db(old(rows), map[]), Op.Publish(id, user))
      ensures r.Some? <==> FindId(old(rows), id).Some?
      ensures r.Some? ==> r.value in rows && r.value.id == id && r.value.isPublished
    {
      var k := FindId(rows, id);
      if k.None? {
        return None;
      }
      var row := rows[k.value];
      assert Is(row, row.prompt, row.version);
      VersionFoundAt(rows, k.value);
      r := UpdatePublishedStatus(row.prompt, row.version, user);
    }

    method Rollback(p: PromptKey, version: nat, user: string) returns (r: Option<Template>)
      requires Valid()
      modifies this
      ensures Valid() && Db(rows, map[]) == Apply(Db(old(rows), map[]), Op.Rollback(p, version, user))
      ensures r.Some? <==> Has(old(rows), p, version)
      ensures r.Some? ==> r.value in rows && Is(r.value, p, version) && r.value.isPublished
    {
      r := UpdatePublishedStatus(p, version, user);
    }

    /** The published-version query raises when it meets two rows, which the invariant excludes. */
    method GetPrompt(p: PromptKey, version: Option<nat>) returns (r: Result<Option<nat>, DbError>)
      requires Valid()
      ensures r == Success(Lookup(rows, p, version))
    {
      if version.Some? {
        return Success(FindVersion(rows, p, version.value));
      }
      var found: Option<nat> := None;
      for i := 0 to |rows|
        invariant found.None? ==> forall j :: 0 <= j < i && rows[j].prompt == p ==> !rows[j].isPublished
        invariant found.Some? ==> found.value < i && rows[found.value].prompt == p && rows[found.value].isPublished
      {
        if rows[i].prompt == p && rows[i].isPublished {
          if found.Some? {
            return Failure(MultipleResults);
          }
          found := Some(i);
        }
      }
      return Success(found);
    }

    /** Render the looked-up version and count its use; a failing call is an error and counts nothing. */
    method RenderPrompt(p: PromptKey, args: Args, version: Option<nat>) returns (r: Result<Option<string>, RenderError>)
      requires Valid()
      modifies this
      ensures Valid()
      ensures var k := Lookup(old(rows), p, version);
        r == if k.None? then Success(None)
             else match RenderRow(old(rows)[k.value], args)
               case Success(text) => Success(Some(text))
               case Failure(error) => Failure(error)
      ensures rows == if r.Success? && r.value.Some?
                      then CountUse(old(rows), old(rows)[Lookup(old(rows), p, version).value].id) else old(rows)
    {
      var found := GetPrompt(p, version);
      if found.value.None? {
        return Success(None);
      }
      var row := rows[found.value.value];
      var rendered := Render(row.content, row.variables, args);
      if rendered.Failure? {
        return Failure(rendered.error);
      }
      CountUseKeepsInv(rows, row.id);
      rows := CountUse(rows, row.id);
      return Success(Some(rendered.value));
    }
  }
}

/**
 * Import validation: `validateTask` and `validateImportedState` turn an
 * untrusted parsed value into well-formed tasks. `uid()` is an oracle
 * `mint: nat -> string` read at a counter that each minted id advances.
 */
module Import {
  import opened Wrappers
  import opened JsonValues
  import opened Dates
  import opened Tasks
  import opened Ordering
  import opened Seqs

  /** `obj.date` with `null`, `""` and `undefined` all read as `null`. */
  function RawDate(v: Json): Json
  {
    match Prop(v, "date")
    case None => JNull
    case Some(JStr(s)) => if s == "" then JNull else JStr(s)
    case Some(d) => d
  }

  /** A date value that passed `isValidISODateString`, as a task's `date`. */
  function DateValue(d: Json): Option<string>
  {
    if d.JStr? then Some(d.s) else None
  }

  /** `typeof obj.id === "string" && obj.id`: the id to keep, if any. */
  function GivenId(v: Json): Option<string>
  {
    match Prop(v, "id")
    case Some(JStr(s)) => if s != "" then Some(s) else None
    case _ => None
  }

  /** `typeof obj.text === "string" ? obj.text : ""`. */
  function TextValue(v: Json): string
  {
    match Prop(v, "text")
    case Some(JStr(s)) => s
    case _ => ""
  }

  /** `validateTask(obj)`; the counter after minting is returned with the task. */
  function ValidateTask(v: Json, mint: nat -> string, next: nat): (r: Result<(Task, nat)>)
    ensures r.Ok? ==> IsObjectLike(v) && IsValidISODateString(RawDate(v))
    ensures r.Ok? ==> var (t, n) := r.value;
      && t.id == (if GivenId(v).Some? then GivenId(v).value else mint(next))
      && t.date == DateValue(RawDate(v))
      && t.text == TextValue(v)
      && t.collapsed == Truthy(Prop(v, "collapsed"))
      && n >= next
    ensures r.Ok? ==> ValidateSubtasks(v, mint, AfterId(v, next)) == Ok((r.value.0.subtasks, r.value.1))
    decreases v, 2
  {
    if !IsObjectLike(v) then Err("Bad task object")
    else
      var id := if GivenId(v).Some? then GivenId(v).value else mint(next);
      var date := RawDate(v);
      if !IsValidISODateString(date) then Err("Invalid date in task")
      else
        match ValidateSubtasks(v, mint, AfterId(v, next))
        case Err(m) => Err(m)
        case Ok((subtasks, n2)) =>
          Ok((Task(id, DateValue(date), TextValue(v), subtasks, Truthy(Prop(v, "collapsed"))), n2))
  }

  /** The counter after the task's own id: one step on when `uid()` was called. */
  function AfterId(v: Json, next: nat): nat
  {
    if GivenId(v).Some? then next else next + 1
  }

  /**
   * `(Array.isArray(obj.subtasks) ? obj.subtasks : []).map(validateTask)`:
   * anything but an array reads as no subtasks, an array is validated item by item.
   */
  function ValidateSubtasks(v: Json, mint: nat -> string, next: nat): (r: Result<(seq<Task>, nat)>)
    ensures !(Prop(v, "subtasks").Some? && Prop(v, "subtasks").value.JArr?) ==> r == Ok(([], next))
    ensures Prop(v, "subtasks").Some? && Prop(v, "subtasks").value.JArr? ==>
      r == ValidateList(Prop(v, "subtasks").value.items, mint, next)
    decreases v, 1
  {
    match Prop(v, "subtasks")
    case Some(JArr(items)) => ValidateList(items, mint, next)
    case _ => Ok(([], next))
  }

  /** `items.map(validateTask)`: the first failure aborts the whole list. */
  function ValidateList(items: seq<Json>, mint: nat -> string, next: nat): (r: Result<(seq<Task>, nat)>)
    ensures r.Ok? ==> |r.value.0| == |items| && r.value.1 >= next
    ensures items == [] ==> r == Ok(([], next))
    decreases items, 0
  {
    if items == [] then Ok(([], next))
    else
      match ValidateTask(items[0], mint, next)
      case Err(m) => Err(m)
      case Ok((t, n1)) =>
        match ValidateList(items[1..], mint, n1)
        case Err(m) => Err(m)
        case Ok((ts, n2)) => Ok(([t] + ts, n2))
  }

  /**
   * `map` validates the items in order: the first result is `validateTask` of
   * the first item, and the rest is the map of the rest, with the counter
   * passed along.
   */
  lemma ValidateListCons(items: seq<Json>, mint: nat -> string, next: nat)
    requires items != [] && ValidateList(items, mint, next).Ok?
    ensures ValidateTask(items[0], mint, next).Ok?
    ensures var (ts, n) := ValidateList(items, mint, next).value;
      var (t, n1) := ValidateTask(items[0], mint, next).value;
      ts[0] == t && ValidateList(items[1..], mint, n1) == Ok((ts[1..], n))
  {
    var (t, n1) := ValidateTask(items[0], mint, next).value;
    var (rest, n) := ValidateList(items[1..], mint, n1).value;
    assert ([t] + rest)[1..] == rest;
  }

  /** `validateImportedState(obj)`: validate `obj.tasks` (default `[]`), then sort every array. */
  function ValidateImportedState(v: Json, mint: nat -> string, next: nat): Result<(seq<Task>, nat)>
  {
    if !IsObjectLike(v) then Err("Bad import")
    else
      var r := match Prop(v, "tasks")
        case Some(JArr(items)) => ValidateList(items, mint, next)
        case _ => Ok(([], next));
      match r
      case Err(m) => Err(m)
      case Ok((ts, n)) => Ok((SortAll(ts), n))
  }

  // ----- What the validator accepts -----

  /** An object (or array) whose date is absent, empty, `null` or a valid date, with acceptable subtasks. */
  predicate Acceptable(v: Json)
    decreases v, 1
  {
    && IsObjectLike(v)
    && IsValidISODateString(RawDate(v))
    && match Prop(v, "subtasks")
       case Some(JArr(items)) => AllAcceptable(items)
       case _ => true
  }

  predicate AllAcceptable(items: seq<Json>)
    decreases items, 0
  {
    items == [] || (Acceptable(items[0]) && AllAcceptable(items[1..]))
  }

  /** `validateTask` throws exactly on the inputs that are not acceptable. */
  lemma {:induction false} ValidateTaskOk(v: Json, mint: nat -> string, next: nat)
    ensures ValidateTask(v, mint, next).Ok? <==> Acceptable(v)
    decreases v, 1
  {
    if IsObjectLike(v) && IsValidISODateString(RawDate(v)) {
      var n1 := if GivenId(v).Some? then next else next + 1;
      match Prop(v, "subtasks")
      case Some(JArr(items)) => ValidateListOk(items, mint, n1);
      case _ =>
    }
  }

  lemma {:induction false} ValidateListOk(items: seq<Json>, mint: nat -> string, next: nat)
    ensures ValidateList(items, mint, next).Ok? <==> AllAcceptable(items)
    decreases items, 0
  {
    if items != [] {
      ValidateTaskOk(items[0], mint, next);
      var r := ValidateTask(items[0], mint, next);
      if r.Ok? {
        ValidateListOk(items[1..], mint, r.value.1);
      }
    }
  }

  // ----- What the validator produces -----

  /** Every task, at every depth, has a non-empty id and a `null` or valid date. */
  predicate WellFormed(ts: seq<Task>)
  {
    forall i :: 0 <= i < |ts| ==> ts[i].id != "" && DateOk(ts[i]) && WellFormed(ts[i].subtasks)
  }

  /** With an oracle that never mints `""`, validated tasks are well formed at every depth. */
  lemma {:induction false} ValidateTaskWellFormed(v: Json, mint: nat -> string, next: nat)
    requires forall n :: mint(n) != ""
    requires ValidateTask(v, mint, next).Ok?
    ensures WellFormed([ValidateTask(v, mint, next).value.0])
    decreases v, 1
  {
    var t := ValidateTask(v, mint, next).value.0;
    var n1 := if GivenId(v).Some? then next else next + 1;
    ValidatedDateOk(v);
    assert WellFormed(t.subtasks) by {
      match Prop(v, "subtasks")
      case Some(JArr(items)) => ValidateListWellFormed(items, mint, n1);
      case _ =>
    }
    WellFormedOne(t);
  }

  lemma WellFormedOne(t: Task)
    requires t.id != "" && DateOk(t) && WellFormed(t.subtasks)
    ensures WellFormed([t])
  {
    assert [t][0] == t;
  }

  lemma ValidatedDateOk(v: Json)
    requires IsValidISODateString(RawDate(v))
    ensures DateValue(RawDate(v)).None? || IsValidDateText(DateValue(RawDate(v)).value)
  {
  }

  lemma {:induction false} ValidateListWellFormed(items: seq<Json>, mint: nat -> string, next: nat)
    requires forall n :: mint(n) != ""
    requires ValidateList(items, mint, next).Ok?
    ensures WellFormed(ValidateList(items, mint, next).value.0)
    decreases items, 0
  {
    if items != [] {
      var r := ValidateTask(items[0], mint, next);
      ValidateTaskWellFormed(items[0], mint, next);
      ValidateListWellFormed(items[1..], mint, r.value.1);
      var ts := ValidateList(items, mint, next).value.0;
      assert ts == [r.value.0] + ValidateList(items[1..], mint, r.value.1).value.0;
    }
  }

  // ----- The serialised form (`JSON.stringify(state)`) -----

  function DateJson(d: Option<string>): Json
  {
    if d.Some? then JStr(d.value) else JNull
  }

  /** A task as `JSON.stringify` writes it. */
  function ToJson(t: Task): Json
  {
    JObj([("id", JStr(t.id)), ("date", DateJson(t.date)), ("text", JStr(t.text)),
          ("subtasks", JArr(ToJsonList(t.subtasks))), ("collapsed", JBool(t.collapsed))])
  }

  function ToJsonList(ts: seq<Task>): (r: seq<Json>)
    ensures |r| == |ts|
  {
    if ts == [] then [] else [ToJson(ts[0])] + ToJsonList(ts[1..])
  }

  /** The stored state `{tasks}`. */
  function StateJson(ts: seq<Task>): Json
  {
    JObj([("tasks", JArr(ToJsonList(ts)))])
  }

  lemma ToJsonFields(t: Task)
    ensures Prop(ToJson(t), "id") == Some(JStr(t.id))
    ensures Prop(ToJson(t), "date") == Some(DateJson(t.date))
    ensures Prop(ToJson(t), "text") == Some(JStr(t.text))
    ensures Prop(ToJson(t), "subtasks") == Some(JArr(ToJsonList(t.subtasks)))
    ensures Prop(ToJson(t), "collapsed") == Some(JBool(t.collapsed))
  {
    var a, b, c, d, e :=
      ("id", JStr(t.id)), ("date", DateJson(t.date)), ("text", JStr(t.text)),
      ("subtasks", JArr(ToJsonList(t.subtasks))), ("collapsed", JBool(t.collapsed));
    assert ToJson(t).fields == [a, b, c, d] + [e];
    assert [a, b, c, d] == [a, b, c] + [d];
    assert [a, b, c] == [a, b] + [c];
    assert [a, b] == [a] + [b];
    assert [a] == [] + [a];
    assert "collapsed"[0] == 'c' && "subtasks"[0] == 's' && "text"[0] == 't' && "date"[0] == 'd' && "id"[0] == 'i';
    forall name | name in {"id", "date", "text", "subtasks", "collapsed"}
      ensures Lookup(ToJson(t).fields, name) == if name == "collapsed" then Some(e.1)
        else if name == "subtasks" then Some(d.1) else if name == "text" then Some(c.1)
        else if name == "date" then Some(b.1) else Some(a.1)
    {
      LookupLast([a, b, c, d], e.0, e.1, name);
      LookupLast([a, b, c], d.0, d.1, name);
      LookupLast([a, b], c.0, c.1, name);
      LookupLast([a], b.0, b.1, name);
      LookupLast([], a.0, a.1, name);
    }
  }

  /** Validating a serialised well-formed task gives it back, minting nothing. */
  lemma {:induction false} TaskRoundTrip(t: Task, mint: nat -> string, next: nat)
    requires WellFormed([t])
    ensures ValidateTask(ToJson(t), mint, next) == Ok((t, next))
    decreases t, 1
  {
    assert [t][0] == t;
    ToJsonReadsKey(t);
    ToJsonReadsRest(t);
    ListRoundTrip(t.subtasks, mint, next);
  }

  /** What the validator reads back from a serialised task: its id and date ... */
  lemma ToJsonReadsKey(t: Task)
    requires t.id != "" && DateOk(t)
    ensures var v := ToJson(t);
      && IsObjectLike(v) && GivenId(v) == Some(t.id)
      && IsValidISODateString(RawDate(v)) && DateValue(RawDate(v)) == t.date
  {
    ToJsonFields(t);
  }

  /** ... and its text, flag and subtasks. */
  lemma ToJsonReadsRest(t: Task)
    ensures var v := ToJson(t);
      && TextValue(v) == t.text && Truthy(Prop(v, "collapsed")) == t.collapsed
      && Prop(v, "subtasks") == Some(JArr(ToJsonList(t.subtasks)))
  {
    ToJsonFields(t);
  }

  lemma {:induction false} ListRoundTrip(ts: seq<Task>, mint: nat -> string, next: nat)
    requires WellFormed(ts)
    ensures ValidateList(ToJsonList(ts), mint, next) == Ok((ts, next))
    decreases ts, 0
  {
    if ts != [] {
      ToJsonListCons(ts);
      WellFormedCons(ts);
      TaskRoundTrip(ts[0], mint, next);
      ListRoundTrip(ts[1..], mint, next);
      Cons(ts);
    }
  }

  lemma ToJsonListCons(ts: seq<Task>)
    requires ts != []
    ensures ToJsonList(ts) != [] && ToJsonList(ts)[0] == ToJson(ts[0]) && ToJsonList(ts)[1..] == ToJsonList(ts[1..])
  {
  }

  /** The head and the tail of a well-formed forest are well formed. */
  lemma WellFormedCons(ts: seq<Task>)
    requires WellFormed(ts) && ts != []
    ensures WellFormed([ts[0]]) && WellFormed(ts[1..])
  {
    assert [ts[0]][0] == ts[0];
    forall i | 0 <= i < |ts[1..]|
      ensures ts[1..][i].id != "" && DateOk(ts[1..][i]) && WellFormed(ts[1..][i].subtasks)
    {
      assert ts[1..][i] == ts[i + 1];
    }
  }

  /** Loading what was saved gives back the outline, sorted; a sorted outline comes back unchanged. */
  lemma StateRoundTrip(ts: seq<Task>, mint: nat -> string, next: nat)
    requires WellFormed(ts)
    ensures ValidateImportedState(StateJson(ts), mint, next) == Ok((SortAll(ts), next))
    ensures AllSorted(ts) ==> ValidateImportedState(StateJson(ts), mint, next) == Ok((ts, next))
  {
    assert Prop(StateJson(ts), "tasks") == Some(JArr(ToJsonList(ts)));
    ListRoundTrip(ts, mint, next);
    if AllSorted(ts) {
      SortAllIdentity(ts);
    }
  }
}

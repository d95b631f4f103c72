/** The GitHub collections of issues, milestones and labels
    (src/gitHubStorage/GitHubIssueCollection.ts, GitHubMilestoneCollection.ts,
    GitHubLabelCollection.ts): the mapping of GitHub's replies to entities, and the
    requests each `get`, `set` and `delete` makes.

    Each REST endpoint is a parameter answering a request with the reply's data or
    with an error; the owner and repository every request carries are left implicit.
 */
module GitHubCollections {
  import opened Wrappers
  import opened Json
  import opened IssueStates
  import Yaml

  /** An endpoint's answer: the reply's data, or an error with the HTTP status when it
      is a `RequestError` and `None` otherwise. */
  datatype Reply<T> = Ok(data: T) | Err(status: Option<int>, message: string)

  function Unwrap<T>(reply: Reply<T>): (r: Result<T>)
    ensures reply.Ok? <==> r.Success?
    ensures reply.Ok? ==> r.value == reply.data
    ensures reply.Err? ==> r.error == reply.message
  {
    match reply
    case Ok(data) => Success(data)
    case Err(_, message) => Failure(message)
  }

  /** The reply's data passed through a mapper, or the reply's error. */
  function Converted(reply: Reply<Value>, f: Value -> Fields): (r: Result<Fields>)
    ensures reply.Ok? ==> r == Success(f(reply.data))
    ensures reply.Err? ==> r == Failure(reply.message)
  {
    if reply.Ok? then Success(f(reply.data)) else Failure(reply.message)
  }

  predicate Nullish(v: Value) {
    Yaml.Nullish(v)
  }

  /** Property access on a reply's data. */
  function Prop(data: Value, k: string): Value {
    if data.Obj? then Get(data.fields, k) else Undefined
  }

  // ------------------------------------------------------------------- mappers

  /** `fs` with the field `(k, v)` added at the end when `present`. */
  function AddIf(fs: Fields, present: bool, k: string, v: Value): (r: Fields)
    requires !Has(fs, k)
    ensures Keys(r) == Keys(fs) + (if present then [k] else [])
    ensures Get(r, k) == (if present then v else Undefined)
    ensures forall j :: j != k ==> Get(r, j) == Get(fs, j) && (Has(r, j) <==> Has(fs, j))
  {
    if present then AddNew(fs, k, v); fs + [(k, v)] else fs
  }

  /** Adding a new key at the end: the key reads the new value, every other key
      reads as before. */
  lemma AddNew(fs: Fields, k: string, v: Value)
    requires !Has(fs, k)
    ensures Get(fs + [(k, v)], k) == v && Has(fs + [(k, v)], k)
    ensures forall j :: j != k ==> Get(fs + [(k, v)], j) == Get(fs, j) && (Has(fs + [(k, v)], j) <==> Has(fs, j))
    ensures Keys(fs + [(k, v)]) == Keys(fs) + [k]
  {
    var r := Put(fs, k, v);
    FindHas(fs, k);
    assert r == fs + [(k, v)];
  }

  /** A record of two fields with different keys. */
  lemma Pair(k1: string, v1: Value, k2: string, v2: Value)
    requires k1 != k2
    ensures var fs := [(k1, v1), (k2, v2)];
      Keys(fs) == [k1, k2] && Get(fs, k1) == v1 && Get(fs, k2) == v2
      && forall j :: j != k1 && j != k2 ==> !Has(fs, j)
  {
    var fs := [(k1, v1), (k2, v2)];
    FindHas(fs, k1);
    FindHas(fs, k2);
    assert fs[0].0 == k1 && fs[1].0 == k2;
  }

  /** A record of three fields with different keys. */
  lemma Triple(k1: string, v1: Value, k2: string, v2: Value, k3: string, v3: Value)
    requires k1 != k2 && k1 != k3 && k2 != k3
    ensures var fs := [(k1, v1), (k2, v2), (k3, v3)];
      Keys(fs) == [k1, k2, k3] && Get(fs, k1) == v1 && Get(fs, k2) == v2 && Get(fs, k3) == v3
      && forall j :: j != k1 && j != k2 && j != k3 ==> !Has(fs, j)
  {
    var fs := [(k1, v1), (k2, v2), (k3, v3)];
    Pair(k1, v1, k2, v2);
    AddNew([(k1, v1), (k2, v2)], k3, v3);
    assert [(k1, v1), (k2, v2)] + [(k3, v3)] == fs;
  }

  /** `toIssue`: the number (from `issue_number`) and the title; the body as the
      description only when it is a string; the state only when it is an issue
      state. */
  function ToIssue(data: Value): (r: Fields)
    ensures Keys(r) == ["number", "title"] + (if Prop(data, "body").Str? then ["description"] else [])
      + (if IsIssueState(Prop(data, "state")) then ["state"] else [])
    ensures Get(r, "number") == Prop(data, "issue_number")
    ensures Get(r, "title") == Prop(data, "title")
    ensures Get(r, "description") == (if Prop(data, "body").Str? then Prop(data, "body") else Undefined)
    ensures Get(r, "state") == (if IsIssueState(Prop(data, "state")) then Prop(data, "state") else Undefined)
  {
    var body := Prop(data, "body");
    var state := Prop(data, "state");
    var base := [("number", Prop(data, "issue_number")), ("title", Prop(data, "title"))];
    Pair("number", Prop(data, "issue_number"), "title", Prop(data, "title"));
    var withBody := AddIf(base, body.Str?, "description", body);
    assert !Has(withBody, "state");
    AddIf(withBody, IsIssueState(state), "state", state)
  }

  /** `toMilestone`: number, state and title; the description and the due date
      (from `due_on`) unless they are `null`. */
  function ToMilestone(data: Value): (r: Fields)
    ensures Keys(r) == ["number", "state", "title"] + (if Prop(data, "description") != Null then ["description"] else [])
      + (if Prop(data, "due_on") != Null then ["dueDate"] else [])
    ensures Get(r, "number") == Prop(data, "number")
    ensures Get(r, "state") == Prop(data, "state")
    ensures Get(r, "title") == Prop(data, "title")
    ensures Prop(data, "description") != Null ==> Get(r, "description") == Prop(data, "description")
    ensures Prop(data, "due_on") != Null ==> Get(r, "dueDate") == Prop(data, "due_on")
  {
    var description := Prop(data, "description");
    var due := Prop(data, "due_on");
    var base := [("number", Prop(data, "number")), ("state", Prop(data, "state")), ("title", Prop(data, "title"))];
    ThreeAndTwo("number", Prop(data, "number"), "state", Prop(data, "state"), "title", Prop(data, "title"),
      description != Null, "description", description, due != Null, "dueDate", due);
    AddIf(AddIf(base, description != Null, "description", description), due != Null, "dueDate", due)
  }

  /** Three fields, then two optional ones, all with different keys. */
  lemma ThreeAndTwo(k1: string, v1: Value, k2: string, v2: Value, k3: string, v3: Value,
                    p4: bool, k4: string, v4: Value, p5: bool, k5: string, v5: Value)
    requires k1 != k2 && k1 != k3 && k2 != k3
    requires k4 != k1 && k4 != k2 && k4 != k3 && k5 != k1 && k5 != k2 && k5 != k3 && k4 != k5
    ensures var base := [(k1, v1), (k2, v2), (k3, v3)];
      && !Has(base, k4)
      && !Has(AddIf(base, p4, k4, v4), k5)
      && var r := AddIf(AddIf(base, p4, k4, v4), p5, k5, v5);
         && Keys(r) == [k1, k2, k3] + (if p4 then [k4] else []) + (if p5 then [k5] else [])
         && Get(r, k1) == v1 && Get(r, k2) == v2 && Get(r, k3) == v3
         && (p4 ==> Get(r, k4) == v4) && (p5 ==> Get(r, k5) == v5)
  {
    Triple(k1, v1, k2, v2, k3, v3);
  }

  /** `toLabel`: color and name; the description unless it is `null`. */
  function ToLabel(data: Value): (r: Fields)
    ensures Keys(r) == ["color", "name"] + (if Prop(data, "description") != Null then ["description"] else [])
    ensures Get(r, "color") == Prop(data, "color")
    ensures Get(r, "name") == Prop(data, "name")
    ensures Prop(data, "description") != Null ==> Get(r, "description") == Prop(data, "description")
  {
    var description := Prop(data, "description");
    var base := [("color", Prop(data, "color")), ("name", Prop(data, "name"))];
    Pair("color", Prop(data, "color"), "name", Prop(data, "name"));
    AddIf(base, description != Null, "description", description)
  }

  /** A label GitHub returns with a description maps to the same label whether or not
      the reply carries other properties: only the three known ones are read. */
  lemma ToLabelReadsKnownKeys(a: Fields, b: Fields)
    requires forall k :: k in {"color", "name", "description"} ==> Get(a, k) == Get(b, k)
    ensures ToLabel(Obj(a)) == ToLabel(Obj(b))
  {
    assert Get(a, "color") == Get(b, "color");
    assert Get(a, "name") == Get(b, "name");
    assert Get(a, "description") == Get(b, "description");
  }

  // -------------------------------------------------------------------- issues

  datatype IssueApi = IssueApi(
    fetch: Value -> Reply<Value>,
    create: Fields -> Reply<Value>,
    update: Fields -> Reply<Value>,
    blockedBy: Value -> Reply<seq<Value>>,
    link: (Value, Value) -> Reply<()>,
    unlink: (Value, Value) -> Reply<()>)

  /** The statuses for which an issue counts as absent. */
  predicate Gone(reply: Reply<Value>) {
    reply.Err? && reply.status.Some? && reply.status.value in {301, 404, 410}
  }

  /** `get(where)`: the issue with `where.number`, `undefined` when GitHub answers
      301, 404 or 410, and the error otherwise. */
  function IssueGet(api: IssueApi, where: Fields): (r: Result<Option<Fields>>)
    ensures Nullish(Get(where, "number")) ==> r == Failure("")
    ensures !Nullish(Get(where, "number")) ==>
      && (api.fetch(Get(where, "number")).Ok? ==> r == Success(Some(ToIssue(api.fetch(Get(where, "number")).data))))
      && (Gone(api.fetch(Get(where, "number"))) ==> r == Success(None))
      && (api.fetch(Get(where, "number")).Err? && !Gone(api.fetch(Get(where, "number"))) ==>
            r == Failure(api.fetch(Get(where, "number")).message))
  {
    var number := Get(where, "number");
    if Nullish(number) then Failure("")
    else
      var reply := api.fetch(number);
      if reply.Ok? then Success(Some(ToIssue(reply.data)))
      else if Gone(reply) then Success(None)
      else Failure(reply.message)
  }

  /** `delete(where)`: not supported. */
  function IssueDelete(where: Fields): (r: Result<()>)
    ensures r == Failure("Not supported.")
  {
    Failure("Not supported.")
  }

  /** The numeric entries of `issue.dependencies`; an absent list is empty, and a
      list that is no array has no `filter` to call. */
  function WantedNumbers(dependencies: Value): (r: Result<seq<Value>>)
    ensures Nullish(dependencies) ==> r == Success([])
    ensures r.Success? <==> Nullish(dependencies) || dependencies.Arr?
    ensures r.Success? ==> forall x :: x in r.value <==> x.Num? && dependencies.Arr? && x in dependencies.items
  {
    match dependencies
    case Undefined => Success([])
    case Null => Success([])
    case Arr(items) => Success(Numbers(items))
    case _ => Failure("issue.dependencies?.filter is not a function")
  }

  function Numbers(items: seq<Value>): (r: seq<Value>)
    ensures forall x :: x in r <==> x.Num? && x in items
  {
    if |items| == 0 then []
    else
      assert forall x :: x in items <==> x == items[0] || x in items[1..];
      (if items[0].Num? then [items[0]] else []) + Numbers(items[1..])
  }

  /** Each distinct element once, in the order of first occurrence (`new Set`). */
  function Dedupe(xs: seq<Value>): (r: seq<Value>)
    ensures forall x :: x in r <==> x in xs
    ensures forall i, j :: 0 <= i < j < |r| ==> r[i] != r[j]
    decreases |xs|
  {
    if |xs| == 0 then []
    else
      var front := Dedupe(xs[..|xs| - 1]);
      var last := xs[|xs| - 1];
      assert forall x :: x in xs <==> x in xs[..|xs| - 1] || x == last;
      if last in front then front else front + [last]
  }

  /** Underscore `difference(a, b)`: the elements of `a` not in `b`, in order. */
  function Difference(a: seq<Value>, b: seq<Value>): (r: seq<Value>)
    ensures forall x :: x in r <==> x in a && x !in b
    ensures |r| <= |a|
  {
    if |a| == 0 then []
    else
      assert forall x :: x in a <==> x == a[0] || x in a[1..];
      (if a[0] in b then [] else [a[0]]) + Difference(a[1..], b)
  }

  /** The id a lookup of one dependency contributes: the reply's `id`, or `null`
      when the issue is gone; other errors fail. */
  function IdOf(reply: Reply<Value>): (r: Result<Value>)
    ensures reply.Ok? ==> r == Success(Prop(reply.data, "id"))
    ensures Gone(reply) ==> r == Success(Null)
    ensures reply.Err? && !Gone(reply) ==> r == Failure(reply.message)
  {
    if reply.Ok? then Success(Prop(reply.data, "id"))
    else if Gone(reply) then Success(Null)
    else Failure(reply.message)
  }

  /** The ids of the looked-up issues, one after the other; the first failing lookup
      fails them all. */
  function LookUp(api: IssueApi, numbers: seq<Value>): (r: Result<seq<Value>>)
    ensures r.Success? <==> forall i :: 0 <= i < |numbers| ==> IdOf(api.fetch(numbers[i])).Success?
    ensures r.Success? ==> |r.value| == |numbers| && forall i :: 0 <= i < |numbers| ==> r.value[i] == IdOf(api.fetch(numbers[i])).value
  {
    if |numbers| == 0 then Success([])
    else
      assert forall i :: 1 <= i < |numbers| ==> numbers[i] == numbers[1..][i - 1];
      var head := IdOf(api.fetch(numbers[0]));
      var rest := LookUp(api, numbers[1..]);
      if head.Failure? then Failure(head.error)
      else if rest.Failure? then Failure(rest.error)
      else Success([head.value] + rest.value)
  }

  /** `#getIssueIds(numbers)`: the numeric ids of the issues that still exist, each
      once. */
  function IssueIds(api: IssueApi, numbers: seq<Value>): (r: Result<seq<Value>>)
    ensures r.Success? <==> forall i :: 0 <= i < |numbers| ==> IdOf(api.fetch(numbers[i])).Success?
    ensures r.Success? ==> forall i, j :: 0 <= i < j < |r.value| ==> r.value[i] != r.value[j]
    ensures r.Success? ==> forall x :: x in r.value <==>
      x.Num? && exists i :: 0 <= i < |numbers| && api.fetch(numbers[i]).Ok? && Prop(api.fetch(numbers[i]).data, "id") == x
  {
    var ids :- LookUp(api, numbers);
    var r := Dedupe(Numbers(ids));
    assert forall x :: x in r <==> x.Num? && x in ids;
    assert forall x :: x in ids <==> exists i :: 0 <= i < |numbers| && ids[i] == x;
    Success(r)
  }

  /** Every call of a batch succeeds, or the first error is reported. */
  function AllOk(replies: seq<Reply<()>>): (r: Result<()>)
    ensures r.Success? <==> forall i :: 0 <= i < |replies| ==> replies[i].Ok?
  {
    if |replies| == 0 then Success(())
    else if replies[0].Err? then Failure(replies[0].message)
    else
      assert forall i :: 1 <= i < |replies| ==> replies[i] == replies[1..][i - 1];
      AllOk(replies[1..])
  }

  /** What a successful `set` did: the issue GitHub returned, and the dependency
      links it added and removed. */
  datatype IssueWrite = IssueWrite(issue: Fields, added: seq<Value>, removed: seq<Value>)

  function CreateIssueRequest(issue: Fields): Fields {
    [("description", Get(issue, "description")), ("labels", Get(issue, "labels")),
     ("milestone", Get(issue, "milestone")), ("title", Get(issue, "title"))]
  }

  function UpdateIssueRequest(issue: Fields): Fields {
    [("body", Get(issue, "description")), ("issue_number", Get(issue, "number")), ("labels", Get(issue, "labels")),
     ("milestone", Get(issue, "milestone")), ("title", Get(issue, "title"))]
  }

  /** `set(issue)`: creates the issue when it has no number and updates it otherwise;
      then looks up the wanted dependencies, reads the current ones, links the wanted
      ones that are missing and unlinks the current ones that are not wanted. Every
      step needs the number, so an issue without one is created and then fails. */
  function IssueSet(api: IssueApi, issue: Fields): (r: Result<IssueWrite>)
    ensures Nullish(Get(issue, "title")) ==> r == Failure("")
    ensures Nullish(Get(issue, "number")) ==> r.Failure?
    ensures r.Success? <==> Writable(api, issue)
    ensures Creates(issue) && api.create(CreateIssueRequest(issue)).Err? ==>
      r == Failure(api.create(CreateIssueRequest(issue)).message)
    ensures Creates(issue) && api.create(CreateIssueRequest(issue)).Ok? ==>
      var numbers := WantedNumbers(Get(issue, "dependencies"));
      && (numbers.Failure? ==> r == Failure(numbers.error))
      && (numbers.Success? && IssueIds(api, numbers.value).Success? ==> r == Failure(""))
    ensures r.Success? ==>
      && api.update(UpdateIssueRequest(issue)).Ok?
      && r.value.issue == ToIssue(api.update(UpdateIssueRequest(issue)).data)
    ensures r.Success? ==>
      && WantedNumbers(Get(issue, "dependencies")).Success?
      && IssueIds(api, WantedNumbers(Get(issue, "dependencies")).value).Success?
      && api.blockedBy(Get(issue, "number")).Ok?
      && var wanted := IssueIds(api, WantedNumbers(Get(issue, "dependencies")).value).value;
         var current := api.blockedBy(Get(issue, "number")).data;
         && (forall x :: x in r.value.added <==> x in wanted && x !in current)
         && (forall x :: x in r.value.removed <==> x in current && x !in wanted)
  {
    var number := Get(issue, "number");
    if Nullish(Get(issue, "title")) then Failure("")
    else
      var data :- Unwrap(if number == Undefined then api.create(CreateIssueRequest(issue)) else api.update(UpdateIssueRequest(issue)));
      var numbers :- WantedNumbers(Get(issue, "dependencies"));
      var wanted :- IssueIds(api, numbers);
      if Nullish(number) then Failure("")
      else
        var links :- Relink(api, number, wanted);
        Success(IssueWrite(ToIssue(data), links.0, links.1))
  }

  /** `#addDependencies` / `#deleteDependencies`: one request per dependency, all of
      which must succeed. */
  function SendAll(send: (Value, Value) -> Reply<()>, number: Value, xs: seq<Value>): (r: Result<()>)
    ensures r.Success? <==> forall x :: x in xs ==> send(number, x).Ok?
  {
    var replies := seq(|xs|, i requires 0 <= i < |xs| => send(number, xs[i]));
    assert forall x :: x in xs ==> exists i :: 0 <= i < |xs| && xs[i] == x && replies[i] == send(number, x);
    AllOk(replies)
  }

  /** The dependency step of `set`: read the current links, link the wanted ones that
      are missing, then unlink the current ones that are not wanted. */
  function Relink(api: IssueApi, number: Value, wanted: seq<Value>): (r: Result<(seq<Value>, seq<Value>)>)
    ensures r.Success? <==> Relinkable(api, number, wanted)
    ensures r.Success? ==> var current := api.blockedBy(number).data;
      && (forall x :: x in r.value.0 <==> x in wanted && x !in current)
      && (forall x :: x in r.value.1 <==> x in current && x !in wanted)
  {
    var current :- Unwrap(api.blockedBy(number));
    var added := Difference(wanted, current);
    var _ :- SendAll(api.link, number, added);
    var removed := Difference(current, wanted);
    var _ :- SendAll(api.unlink, number, removed);
    Success((added, removed))
  }

  /** The current links can be read and every link and unlink request succeeds. */
  predicate Relinkable(api: IssueApi, number: Value, wanted: seq<Value>) {
    && api.blockedBy(number).Ok?
    && var current := api.blockedBy(number).data;
       && (forall x :: x in wanted && x !in current ==> api.link(number, x).Ok?)
       && (forall x :: x in current && x !in wanted ==> api.unlink(number, x).Ok?)
  }

  /** The create branch: a titled issue without a number. */
  predicate Creates(issue: Fields) {
    !Nullish(Get(issue, "title")) && Get(issue, "number") == Undefined
  }

  /** Everything `set` needs to succeed: a title and a number, the update, the
      dependency lookups, the current links, and every link and unlink request. */
  predicate Writable(api: IssueApi, issue: Fields) {
    var number := Get(issue, "number");
    var numbers := WantedNumbers(Get(issue, "dependencies"));
    && !Nullish(Get(issue, "title")) && !Nullish(number)
    && api.update(UpdateIssueRequest(issue)).Ok?
    && numbers.Success? && IssueIds(api, numbers.value).Success?
    && Relinkable(api, number, IssueIds(api, numbers.value).value)
  }

  /** Linking what is missing and unlinking what is not wanted leaves exactly the
      wanted dependencies. */
  lemma DependenciesConverge(wanted: seq<Value>, current: seq<Value>)
    ensures (set x | x in current) - (set x | x in Difference(current, wanted)) + (set x | x in Difference(wanted, current))
      == set x | x in wanted
  {
  }

  /** After a successful `set`, the issue's links are the wanted ones. */
  lemma IssueSetLinksWanted(api: IssueApi, issue: Fields)
    requires IssueSet(api, issue).Success?
    ensures var w := IssueSet(api, issue).value;
      var wanted := IssueIds(api, WantedNumbers(Get(issue, "dependencies")).value).value;
      var current := api.blockedBy(Get(issue, "number")).data;
      (set x | x in current) - (set x | x in w.removed) + (set x | x in w.added) == set x | x in wanted
  {
    var w := IssueSet(api, issue).value;
    LinksWanted(api.blockedBy(Get(issue, "number")).data, w.added, w.removed,
      IssueIds(api, WantedNumbers(Get(issue, "dependencies")).value).value);
  }

  /** Removing what is linked but not wanted and adding what is wanted but not linked
      leaves exactly the wanted links. */
  lemma LinksWanted(current: seq<Value>, added: seq<Value>, removed: seq<Value>, wanted: seq<Value>)
    requires forall x :: x in added <==> x in wanted && x !in current
    requires forall x :: x in removed <==> x in current && x !in wanted
    ensures (set x | x in current) - (set x | x in removed) + (set x | x in added) == set x | x in wanted
  {
  }

  // ---------------------------------------------------------------- milestones

  datatype MilestoneApi = MilestoneApi(
    fetch: Value -> Reply<Value>,
    create: Fields -> Reply<Value>,
    update: Fields -> Reply<Value>,
    remove: Value -> Reply<()>)

  predicate NotFound<T>(reply: Reply<T>) {
    reply.Err? && reply.status == Some(404)
  }

  /** `get(where)`: the milestone with `where.number`, `undefined` only on 404. */
  function MilestoneGet(api: MilestoneApi, where: Fields): (r: Result<Option<Fields>>)
    ensures Nullish(Get(where, "number")) ==> r == Failure("")
    ensures !Nullish(Get(where, "number")) ==>
      && (api.fetch(Get(where, "number")).Ok? ==> r == Success(Some(ToMilestone(api.fetch(Get(where, "number")).data))))
      && (NotFound(api.fetch(Get(where, "number"))) ==> r == Success(None))
      && (api.fetch(Get(where, "number")).Err? && !NotFound(api.fetch(Get(where, "number"))) ==>
            r == Failure(api.fetch(Get(where, "number")).message))
  {
    var number := Get(where, "number");
    if Nullish(number) then Failure("")
    else
      var reply := api.fetch(number);
      if reply.Ok? then Success(Some(ToMilestone(reply.data)))
      else if NotFound(reply) then Success(None)
      else Failure(reply.message)
  }

  function DueOrEmpty(due: Value): (r: Value)
    ensures Nullish(due) ==> r == Str("")
    ensures !Nullish(due) ==> r == due
  {
    if Nullish(due) then Str("") else due
  }

  function CreateMilestoneRequest(m: Fields): Fields {
    [("description", Get(m, "description")), ("due_on", DueOrEmpty(Get(m, "dueDate"))),
     ("state", Get(m, "state")), ("title", Get(m, "title"))]
  }

  function UpdateMilestoneRequest(m: Fields): Fields {
    [("description", Get(m, "description")), ("due_on", Get(m, "dueDate")), ("milestone_number", Get(m, "number")),
     ("state", Get(m, "state")), ("title", Get(m, "title"))]
  }

  /** `set(milestone)`: a milestone without number is created (it needs a title, and
      a missing due date is sent as ''); one with a number updates that milestone. */
  function MilestoneSet(api: MilestoneApi, m: Fields): (r: Result<Fields>)
    ensures Get(m, "number") == Undefined && Nullish(Get(m, "title")) ==> r == Failure("")
    ensures Get(m, "number") == Undefined && !Nullish(Get(m, "title")) ==>
      r == Converted(api.create(CreateMilestoneRequest(m)), ToMilestone)
    ensures Get(m, "number") != Undefined ==> r == Converted(api.update(UpdateMilestoneRequest(m)), ToMilestone)
  {
    if Get(m, "number") == Undefined then
      if Nullish(Get(m, "title")) then Failure("")
      else Converted(api.create(CreateMilestoneRequest(m)), ToMilestone)
    else Converted(api.update(UpdateMilestoneRequest(m)), ToMilestone)
  }

  /** `delete(where)`: deletes the milestone with `where.number`, which is required. */
  function MilestoneDelete(api: MilestoneApi, where: Fields): (r: Result<()>)
    ensures Nullish(Get(where, "number")) ==> r == Failure("")
    ensures !Nullish(Get(where, "number")) ==> r == Unwrap(api.remove(Get(where, "number")))
  {
    if Nullish(Get(where, "number")) then Failure("") else Unwrap(api.remove(Get(where, "number")))
  }

  // -------------------------------------------------------------------- labels

  datatype LabelApi = LabelApi(
    fetch: Value -> Reply<Value>,
    create: Fields -> Reply<Value>,
    update: Fields -> Reply<Value>,
    remove: Value -> Reply<()>)

  /** `get(where)`: the label named `where.name`, `undefined` only on 404. */
  function LabelGet(api: LabelApi, where: Fields): (r: Result<Option<Fields>>)
    ensures Nullish(Get(where, "name")) ==> r == Failure("")
    ensures !Nullish(Get(where, "name")) ==>
      && (api.fetch(Get(where, "name")).Ok? ==> r == Success(Some(ToLabel(api.fetch(Get(where, "name")).data))))
      && (NotFound(api.fetch(Get(where, "name"))) ==> r == Success(None))
      && (api.fetch(Get(where, "name")).Err? && !NotFound(api.fetch(Get(where, "name"))) ==>
            r == Failure(api.fetch(Get(where, "name")).message))
  {
    var name := Get(where, "name");
    if Nullish(name) then Failure("")
    else
      var reply := api.fetch(name);
      if reply.Ok? then Success(Some(ToLabel(reply.data)))
      else if NotFound(reply) then Success(None)
      else Failure(reply.message)
  }

  function LabelRequest(l: Fields): Fields {
    [("color", Get(l, "color")), ("description", Get(l, "description")), ("name", Get(l, "name"))]
  }

  /** `set(label)`: an upsert by name; the label is created when `get` finds
      nothing, updated otherwise. */
  function LabelSet(api: LabelApi, l: Fields): (r: Result<Fields>)
    ensures Nullish(Get(l, "name")) ==> r == Failure("")
    ensures LabelGet(api, l) == Success(None) ==> r == Converted(api.create(LabelRequest(l)), ToLabel)
    ensures LabelGet(api, l).Success? && LabelGet(api, l).value.Some? ==>
      r == Converted(api.update(LabelRequest(l)), ToLabel)
    ensures LabelGet(api, l).Failure? ==> r == Failure(LabelGet(api, l).error)
  {
    var existing :- LabelGet(api, l);
    if existing.None? then Converted(api.create(LabelRequest(l)), ToLabel)
    else Converted(api.update(LabelRequest(l)), ToLabel)
  }

  /** `delete(where)`: deletes the label named `where.name`, which is required. */
  function LabelDelete(api: LabelApi, where: Fields): (r: Result<()>)
    ensures Nullish(Get(where, "name")) ==> r == Failure("")
    ensures !Nullish(Get(where, "name")) ==> r == Unwrap(api.remove(Get(where, "name")))
  {
    if Nullish(Get(where, "name")) then Failure("") else Unwrap(api.remove(Get(where, "name")))
  }
}

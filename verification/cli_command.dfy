/** The options of a command and the command itself (src/cli/CommandOptionCollection.ts,
    src/cli/Command.ts).

    The collection is a map from option name to option: adding under a name already
    present replaces that option where it stands, and iteration follows the order in
    which names were first added. A command parses each of its options into the
    request's options record, in that order, and then runs its action on the record.
 */
module CliCommands {
  import opened Wrappers
  import opened Json
  import opened Strings
  import opened CommandOptions

  /** The names of the options, in collection order. */
  function Names(c: seq<CommandOption>): (r: seq<string>)
    ensures |r| == |c|
    ensures forall i :: 0 <= i < |c| ==> r[i] == c[i].name
  {
    seq(|c|, i requires 0 <= i < |c| => c[i].name)
  }

  /** `get(name)`: the option kept under `name`, or undefined. */
  function Lookup(c: seq<CommandOption>, name: string): (r: Option<CommandOption>)
    ensures r.Some? <==> name in Names(c)
    ensures r.Some? ==> r.value.name == name && r.value in c
    ensures r.Some? && Distinct(Names(c)) ==> forall i :: 0 <= i < |c| && c[i].name == name ==> c[i] == r.value
  {
    if |c| == 0 then None
    else if c[0].name == name then Some(c[0])
    else
      assert Names(c) == [c[0].name] + Names(c[1..]);
      Lookup(c[1..], name)
  }

  /** `add(option)`: `Map.set` under the option's name. */
  function Add(c: seq<CommandOption>, o: CommandOption): (r: seq<CommandOption>)
    requires Distinct(Names(c))
    ensures Distinct(Names(r))
    ensures Lookup(r, o.name) == Some(o)
    ensures forall n :: n != o.name ==> Lookup(r, n) == Lookup(c, n)
    ensures o.name in Names(c) ==> Names(r) == Names(c)
    ensures o.name !in Names(c) ==> Names(r) == Names(c) + [o.name]
  {
    if o.name in Names(c) then
      var i := FirstIndex(Names(c), o.name);
      var r := c[i := o];
      assert Names(r) == Names(c);
      LookupAt(r, i);
      forall n | n != o.name ensures Lookup(r, n) == Lookup(c, n) {
        LookupOther(c, i, o, n);
      }
      r
    else
      var r := c + [o];
      assert Names(r) == Names(c) + [o.name];
      LookupAt(r, |c|);
      forall n | n != o.name ensures Lookup(r, n) == Lookup(c, n) {
        LookupSnoc(c, o, n);
      }
      r
  }

  lemma {:induction false} LookupAt(c: seq<CommandOption>, i: nat)
    requires Distinct(Names(c)) && i < |c|
    ensures Lookup(c, c[i].name) == Some(c[i])
    decreases |c|
  {
    if i > 0 {
      assert Names(c)[0] == c[0].name && Names(c)[i] == c[i].name;
      assert Names(c[1..]) == Names(c)[1..];
      LookupAt(c[1..], i - 1);
    }
  }

  lemma {:induction false} LookupOther(c: seq<CommandOption>, i: nat, o: CommandOption, n: string)
    requires i < |c| && c[i].name == o.name && n != o.name
    ensures Lookup(c[i := o], n) == Lookup(c, n)
    decreases |c|
  {
    if i > 0 {
      assert c[i := o][1..] == c[1..][i - 1 := o];
      LookupOther(c[1..], i - 1, o, n);
    }
  }

  lemma {:induction false} LookupSnoc(c: seq<CommandOption>, o: CommandOption, n: string)
    requires n != o.name
    ensures Lookup(c + [o], n) == Lookup(c, n)
    decreases |c|
  {
    if |c| > 0 {
      assert (c + [o])[1..] == c[1..] + [o];
      LookupSnoc(c[1..], o, n);
    } else {
      assert Lookup([o], n) == Lookup([o][1..], n);
    }
  }

  /** The collection after adding `os` in order to an empty one. */
  function Build(os: seq<CommandOption>): (r: seq<CommandOption>)
    ensures Distinct(Names(r))
    decreases |os|
  {
    if |os| == 0 then [] else Add(Build(os[..|os| - 1]), os[|os| - 1])
  }

  /** The last option of `os` named `name`: what `get` must answer. */
  function LastNamed(os: seq<CommandOption>, name: string): Option<CommandOption>
    decreases |os|
  {
    if |os| == 0 then None
    else if os[|os| - 1].name == name then Some(os[|os| - 1])
    else LastNamed(os[..|os| - 1], name)
  }

  /** Adding options one by one: `get` answers the last one added under a name, and
      iteration yields each name once, in the order of its first addition; so there
      are never more options than distinct names added. */
  lemma BuildKeepsLastAndFirstOrder(os: seq<CommandOption>)
    ensures forall n :: Lookup(Build(os), n) == LastNamed(os, n)
    ensures Names(Build(os)) == Uniq(Names(os))
    ensures |Build(os)| <= |os|
  {
    BuildKeepsLast(os);
    BuildKeepsFirstOrder(os);
  }

  lemma {:induction false} BuildKeepsLast(os: seq<CommandOption>)
    ensures forall n :: Lookup(Build(os), n) == LastNamed(os, n)
    decreases |os|
  {
    if |os| > 0 {
      BuildKeepsLast(os[..|os| - 1]);
    }
  }

  lemma {:induction false} BuildKeepsFirstOrder(os: seq<CommandOption>)
    ensures Names(Build(os)) == Uniq(Names(os))
    ensures |Build(os)| <= |os|
    decreases |os|
  {
    if |os| > 0 {
      var front := os[..|os| - 1];
      var o := os[|os| - 1];
      BuildKeepsFirstOrder(front);
      NamesSnoc(os);
      UniqSnoc(Names(os));
      assert o.name in Names(Build(front)) <==> o.name in Names(front);
    }
  }

  lemma NamesSnoc(os: seq<CommandOption>)
    requires |os| > 0
    ensures |Names(os)| == |os|
    ensures Names(os)[..|os| - 1] == Names(os[..|os| - 1]) && Names(os)[|os| - 1] == os[|os| - 1].name
  {
  }

  // --------------------------------------------------------------- commands

  /** An action: it reads the options record and returns nothing (`None`), a
      boolean, or throws. */
  type Action = Fields -> Result<Option<bool>>

  datatype Command = Command(options: seq<CommandOption>, description: string, action: Action)

  const DefaultDescription := "The command description is missing."

  /** The constructor: no options yet, and a default description. */
  function MakeCommand(action: Action, description: Option<string>): (c: Command)
    ensures c.options == [] && c.action == action
    ensures description.None? ==> c.description == DefaultDescription
    ensures description.Some? ==> c.description == description.value
  {
    Command([], description.GetOr(DefaultDescription), action)
  }

  /** The options of a command parsed in order into `request`; the first error stops
      the parse. */
  function ParseAll(os: seq<CommandOption>, raw: seq<string>, request: Fields): (r: Result<Fields>)
    ensures |os| == 0 ==> r == Success(request)
    ensures |os| > 0 ==> (ParseOption(os[0], raw, request).Failure? ==> r == Failure(ParseOption(os[0], raw, request).error))
    ensures |os| > 0 && ParseOption(os[0], raw, request).Success? ==>
      r == ParseAll(os[1..], raw, ParseOption(os[0], raw, request).value)
    decreases |os|
  {
    if |os| == 0 then Success(request)
    else
      var next :- ParseOption(os[0], raw, request);
      ParseAll(os[1..], raw, next)
  }

  /** Parsing two runs of options is parsing the first, then the second on its
      result. */
  lemma {:induction false} ParseAllAppend(a: seq<CommandOption>, b: seq<CommandOption>, raw: seq<string>, request: Fields)
    ensures ParseAll(a + b, raw, request) ==
      (match ParseAll(a, raw, request)
       case Failure(e) => Failure(e)
       case Success(mid) => ParseAll(b, raw, mid))
    decreases |a|
  {
    if |a| > 0 {
      assert (a + b)[0] == a[0] && (a + b)[1..] == a[1..] + b;
      if ParseOption(a[0], raw, request).Success? {
        ParseAllAppend(a[1..], b, raw, ParseOption(a[0], raw, request).value);
      }
    } else {
      assert a + b == b;
    }
  }

  /** `execute(request)`: every option is parsed before the action runs; the command
      answers false exactly when the action returns `false`. */
  function Execute(cmd: Command, raw: seq<string>, request: Fields): (r: Result<(Fields, bool)>)
    ensures ParseAll(cmd.options, raw, request).Failure? ==> r == Failure(ParseAll(cmd.options, raw, request).error)
    ensures ParseAll(cmd.options, raw, request).Success? ==>
      var opts := ParseAll(cmd.options, raw, request).value;
      && (r.Success? <==> cmd.action(opts).Success?)
      && (r.Failure? ==> r.error == cmd.action(opts).error)
      && (r.Success? ==> r.value == (opts, cmd.action(opts).value != Some(false)))
  {
    var opts :- ParseAll(cmd.options, raw, request);
    var result :- cmd.action(opts);
    Success((opts, result != Some(false)))
  }

  /** When an option cannot be parsed the action is never consulted: any other
      action gives the same outcome. */
  lemma BadOptionSkipsAction(cmd: Command, other: Action, raw: seq<string>, request: Fields)
    requires ParseAll(cmd.options, raw, request).Failure?
    ensures Execute(cmd, raw, request) == Execute(cmd.(action := other), raw, request)
  {
  }
}

/** open1722/argp.c: parsing command-line options against a table. A callback
    does not change state->next, and strings hold no NUL character. */
module Argp {
  import opened Options

  /** struct argp_option; of arg and doc only their presence matters. */
  datatype Entry = Entry(name: Option<string>, key: int, arg: bool, doc: bool)

  /** The loop condition over the table; the entry that fails it ends the table. */
  predicate Live(e: Entry) {
    e.name.Some? || e.key != 0 || e.arg || e.doc
  }

  predicate Terminated(options: seq<Entry>) {
    options != [] && !Live(options[|options| - 1])
  }

  /** What one option argument leads to: a call of the parser callback, exit, or
      a read past the end of the argument "-". */
  datatype Verdict = Call(key: int, value: Option<string>) | Exit(status: int) | OutOfBounds

  // ----- specification -----

  /** strncmp (opt->name, arg, len) == 0, for a len within arg. */
  predicate Names(e: Entry, prefix: string) {
    e.name.Some? && prefix <= e.name.value
  }

  /** The table loop of parse_long_option from entry i. */
  function LongFrom(options: seq<Entry>, i: nat, arg: string, prefix: string, value: Option<string>): Verdict
    decreases |options| - i
  {
    if i >= |options| || !Live(options[i]) then Exit(1)
    else if Names(options[i], prefix) then
      if options[i].arg && value.None? then Exit(1) else Call(options[i].key, value)
    else if arg == "help" then Exit(0)
    else LongFrom(options, i + 1, arg, prefix, value)
  }

  /** The table loop of parse_short_option from entry i. */
  function ShortFrom(options: seq<Entry>, i: nat, key: char, value: Option<string>): Verdict
    decreases |options| - i
  {
    if i >= |options| || !Live(options[i]) then Exit(1)
    else if options[i].key == key as int then
      if options[i].arg && value.None? then Exit(1) else Call(key as int, value)
    else if key == 'h' then Exit(0)
    else ShortFrom(options, i + 1, key, value)
  }

  /** strchr (s, '='), as an index, or the length. */
  function EqualsSign(s: string): (n: nat)
    ensures n <= |s| && (n < |s| ==> s[n] == '=') && '=' !in s[..n]
  {
    if s == [] || s[0] == '=' then 0 else 1 + EqualsSign(s[1..])
  }

  /** Whether argument n is an option. */
  predicate IsOption(argv: seq<string>, n: nat) {
    n < |argv| && argv[n] != "" && argv[n][0] == '-'
  }

  /** The next argument, taken as a separate value. */
  function Following(argv: seq<string>, n: nat): Option<string> {
    if n + 1 < |argv| then Some(argv[n + 1]) else None
  }

  /** Whether the option at n takes its value from the following argument. */
  predicate TakesNext(argv: seq<string>, n: nat)
    requires IsOption(argv, n)
  {
    var a := argv[n];
    n + 1 < |argv| && if |a| >= 2 && a[1] == '-' then EqualsSign(a[2..]) == |a| - 2 else |a| == 2
  }

  function Used(argv: seq<string>, n: nat): nat
    requires IsOption(argv, n)
  {
    if TakesNext(argv, n) then 2 else 1
  }

  function Judge(options: seq<Entry>, argv: seq<string>, n: nat): Verdict
    requires IsOption(argv, n)
  {
    var a := argv[n];
    if |a| >= 2 && a[1] == '-' then
      var arg := a[2..];
      var e := EqualsSign(arg);
      if e < |arg| then LongFrom(options, 0, arg, arg[..e], Some(arg[e + 1..]))
      else LongFrom(options, 0, arg, arg, Following(argv, n))
    else if |a| == 1 then OutOfBounds
    else if |a| == 2 then ShortFrom(options, 0, a[1], Following(argv, n))
    else ShortFrom(options, 0, a[1], Some(a[2..]))
  }

  /** A callback made for the arguments at..at+used. */
  datatype Event = Event(key: int, value: Option<string>, at: nat, used: nat)

  datatype Outcome = Finished(next: nat) | Stopped(verdict: Verdict)

  datatype Parsed = Parsed(events: seq<Event>, outcome: Outcome)

  /** argp_parse from argument n. */
  function Parse(options: seq<Entry>, argv: seq<string>, n: nat): Parsed
    decreases |argv| - n
  {
    if !IsOption(argv, n) then Parsed([], Finished(n))
    else
      match Judge(options, argv, n)
      case Call(key, value) =>
        var rest := Parse(options, argv, n + Used(argv, n));
        Parsed([Event(key, value, n, Used(argv, n))] + rest.events, rest.outcome)
      case v => Parsed([], Stopped(v))
  }

  // ----- the code -----

  class State {
    const argv: seq<string>
    var next: nat
    var events: seq<Event>

    constructor (argv: seq<string>)
      ensures this.argv == argv && next == 1 && events == []
    {
      this.argv := argv;
      next := 1;
      events := [];
    }
  }

  method FindEquals(s: string) returns (n: nat)
    ensures n == EqualsSign(s)
  {
    n := 0;
    while n < |s| && s[n] != '='
      invariant n <= |s| && n + EqualsSign(s[n..]) == EqualsSign(s)
    {
      assert s[n..][1..] == s[n + 1..];
      n := n + 1;
    }
  }

  method ParseLongOption(options: seq<Entry>, arg: string, state: State, ghost at: nat) returns (v: Verdict)
    requires Terminated(options) && IsOption(state.argv, at) && state.next == at + 1
    requires |state.argv[at]| >= 2 && state.argv[at][1] == '-' && arg == state.argv[at][2..]
    modifies state`next
    ensures v == Judge(options, state.argv, at) && state.next == at + Used(state.argv, at)
  {
    var pos := FindEquals(arg);
    var value := None;
    var len := |arg|;
    if pos < |arg| {
      len := pos;
      value := Some(arg[pos + 1..]);
    } else if state.next < |state.argv| {
      value := Some(state.argv[state.next]);
      state.next := state.next + 1;
    }
    assert arg[..|arg|] == arg;
    var i := 0;
    while Live(options[i])
      invariant i < |options|
      invariant Judge(options, state.argv, at) == LongFrom(options, i, arg, arg[..len], value)
      decreases |options| - i
    {
      var opt := options[i];
      if opt.name.Some? && arg[..len] <= opt.name.value {
        if opt.arg && value.None? {
          return Exit(1);
        }
        return Call(opt.key, value);
      } else if arg == "help" {
        return Exit(0);
      }
      i := i + 1;
    }
    return Exit(1);
  }

  method ParseShortOption(options: seq<Entry>, arg: string, state: State, ghost at: nat) returns (v: Verdict)
    requires Terminated(options) && IsOption(state.argv, at) && state.next == at + 1
    requires (|state.argv[at]| >= 2 ==> state.argv[at][1] != '-') && arg == state.argv[at][1..]
    modifies state`next
    ensures v == Judge(options, state.argv, at)
    ensures v != OutOfBounds ==> state.next == at + Used(state.argv, at)
  {
    if arg == "" {
      return OutOfBounds;
    }
    var key := arg[0];
    var value := None;
    if |arg| > 1 {
      value := Some(arg[1..]);
      assert arg[1..] == state.argv[at][2..];
    } else if state.next < |state.argv| {
      value := Some(state.argv[state.next]);
      state.next := state.next + 1;
    }
    var i := 0;
    while Live(options[i])
      invariant i < |options|
      invariant Judge(options, state.argv, at) == ShortFrom(options, i, key, value)
      decreases |options| - i
    {
      if options[i].key == key as int {
        if options[i].arg && value.None? {
          return Exit(1);
        }
        return Call(key as int, value);
      } else if key == 'h' {
        return Exit(0);
      }
      i := i + 1;
    }
    return Exit(1);
  }

  method ArgpParse(options: seq<Entry>, argv: seq<string>) returns (state: State, outcome: Outcome)
    requires Terminated(options)
    ensures Parsed(state.events, outcome) == Parse(options, argv, 1)
    ensures outcome.Finished? ==> state.next == outcome.next
  {
    hide Judge, Used, Parse;
    state := new State(argv);
    NoEvents(Parse(options, argv, 1));
    while state.next < |argv|
      invariant state.argv == argv
      invariant var rest := Parse(options, argv, state.next);
        Parse(options, argv, 1) == Parsed(state.events + rest.events, rest.outcome)
      decreases |argv| - state.next
    {
      var arg := argv[state.next];
      ParseStep(options, argv, state.next);
      if arg == "" || arg[0] != '-' {
        break;
      }
      var at := state.next;
      state.next := state.next + 1;
      var v;
      if |arg| >= 2 && arg[1] == '-' {
        v := ParseLongOption(options, arg[2..], state, at);
      } else {
        v := ParseShortOption(options, arg[1..], state, at);
      }
      if !v.Call? {
        return state, Stopped(v);
      }
      state.events := state.events + [Event(v.key, v.value, at, state.next - at)];
    }
    ParseStep(options, argv, state.next);
    outcome := Finished(state.next);
  }

  lemma NoEvents(p: Parsed)
    ensures p == Parsed([] + p.events, p.outcome)
  {
    assert [] + p.events == p.events;
  }

  /** One argument of argp_parse. */
  lemma ParseStep(options: seq<Entry>, argv: seq<string>, n: nat)
    ensures !IsOption(argv, n) ==> Parse(options, argv, n) == Parsed([], Finished(n))
    ensures IsOption(argv, n) ==>
      var v, used := Judge(options, argv, n), Used(argv, n);
      if v.Call? then
        var rest := Parse(options, argv, n + used);
        Parse(options, argv, n) == Parsed([Event(v.key, v.value, n, used)] + rest.events, rest.outcome)
      else Parse(options, argv, n) == Parsed([], Stopped(v))
  {
  }

  // ----- every argument is consumed once -----

  /** The events cover the arguments from..to, each exactly once and in order. */
  predicate Tiles(es: seq<Event>, from: nat, to: nat) {
    if es == [] then from == to
    else es[0].at == from && 1 <= es[0].used <= 2 && Tiles(es[1..], from + es[0].used, to)
  }

  /** In a run that does not exit, next grows with every callback; the callbacks
      divide up the arguments in front of the one parsing stops at, which is no
      option; and a callback over two arguments got the second as its value. */
  lemma {:induction false} ArgumentsAreConsumedOnce(options: seq<Entry>, argv: seq<string>, n: nat)
    requires n <= |argv| && Parse(options, argv, n).outcome.Finished?
    ensures var p := Parse(options, argv, n);
      && n <= p.outcome.next <= |argv| && !IsOption(argv, p.outcome.next)
      && Tiles(p.events, n, p.outcome.next)
      && forall e :: e in p.events ==>
           n <= e.at && e.at + e.used <= |argv| && IsOption(argv, e.at)
           && (e.used == 2 ==> e.value == Some(argv[e.at + 1]))
    decreases |argv| - n
  {
    hide Judge, Used, Parse;
    ParseStep(options, argv, n);
    if IsOption(argv, n) {
      var v, used := Judge(options, argv, n), Used(argv, n);
      UsedIsPresent(options, argv, n);
      ArgumentsAreConsumedOnce(options, argv, n + used);
      var e, rest := Event(v.key, v.value, n, used), Parse(options, argv, n + used);
      assert ([e] + rest.events)[1..] == rest.events;
    }
  }

  /** Every run, whether it exits or not: each callback is the verdict on the option it is
      made for, and parsing goes on from there exactly until the first argument that is no
      option, or whose verdict is no callback. */
  lemma {:induction false} EveryVerdictIsHeeded(options: seq<Entry>, argv: seq<string>, n: nat) returns (m: nat)
    requires n <= |argv|
    ensures var p := Parse(options, argv, n);
      && n <= m <= |argv| && Tiles(p.events, n, m)
      && (forall e :: e in p.events ==>
            IsOption(argv, e.at) && e.used == Used(argv, e.at) && Judge(options, argv, e.at) == Call(e.key, e.value))
      && if IsOption(argv, m) then
           !Judge(options, argv, m).Call? && p.outcome == Stopped(Judge(options, argv, m))
         else p.outcome == Finished(m)
    decreases |argv| - n
  {
    hide Judge, Used, Parse;
    ParseStep(options, argv, n);
    m := n;
    if IsOption(argv, n) && Judge(options, argv, n).Call? {
      var v, used := Judge(options, argv, n), Used(argv, n);
      UsedIsPresent(options, argv, n);
      m := EveryVerdictIsHeeded(options, argv, n + used);
      var e, rest := Event(v.key, v.value, n, used), Parse(options, argv, n + used);
      assert ([e] + rest.events)[1..] == rest.events;
    }
  }

  /** The arguments a callback is made for exist, and the second one is its value. */
  lemma UsedIsPresent(options: seq<Entry>, argv: seq<string>, n: nat)
    requires IsOption(argv, n) && Judge(options, argv, n).Call?
    ensures 1 <= Used(argv, n) <= 2 && n + Used(argv, n) <= |argv|
    ensures Used(argv, n) == 2 ==> Judge(options, argv, n).value == Some(argv[n + 1])
  {
    hide Judge;
    if TakesNext(argv, n) {
      SecondArgumentIsValue(options, argv, n);
    }
  }

  lemma SecondArgumentIsValue(options: seq<Entry>, argv: seq<string>, n: nat)
    requires IsOption(argv, n) && Judge(options, argv, n).Call? && TakesNext(argv, n)
    ensures Judge(options, argv, n).value == Some(argv[n + 1])
  {
    var a := argv[n];
    if |a| >= 2 && a[1] == '-' {
      LongValue(options, 0, a[2..], a[2..], Following(argv, n));
    } else if |a| == 2 {
      ShortValue(options, 0, a[1], Following(argv, n));
    }
  }

  lemma {:induction false} LongValue(options: seq<Entry>, i: nat, arg: string, prefix: string, value: Option<string>)
    requires LongFrom(options, i, arg, prefix, value).Call?
    ensures LongFrom(options, i, arg, prefix, value).value == value
    decreases |options| - i
  {
    if i < |options| && Live(options[i]) && !Names(options[i], prefix) && arg != "help" {
      LongValue(options, i + 1, arg, prefix, value);
    }
  }

  lemma {:induction false} ShortValue(options: seq<Entry>, i: nat, key: char, value: Option<string>)
    requires ShortFrom(options, i, key, value).Call?
    ensures ShortFrom(options, i, key, value).value == value
    decreases |options| - i
  {
    if i < |options| && Live(options[i]) && options[i].key != key as int && key != 'h' {
      ShortValue(options, i + 1, key, value);
    }
  }
}

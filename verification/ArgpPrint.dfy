/** Options as they are written on a command line and what open1722/argp.c makes of
    them: a verdict for every form of every option, and printing as the inverse of parsing. */
module ArgpPrint {
  import opened Argp
  import opened Options

  // ----- which entry an option selects -----

  /** j is the first entry whose name begins so. */
  ghost predicate Named(options: seq<Entry>, name: string, j: nat) {
    && j < |options| && (forall i :: 0 <= i <= j ==> Live(options[i]))
    && Names(options[j], name) && forall i :: 0 <= i < j ==> !Names(options[i], name)
  }

  /** j is the first entry with that key. */
  ghost predicate Keyed(options: seq<Entry>, key: char, j: nat) {
    && j < |options| && (forall i :: 0 <= i <= j ==> Live(options[i]))
    && options[j].key == key as int && forall i :: 0 <= i < j ==> options[i].key != key as int
  }

  /** What selecting entry e comes to. */
  function Chosen(e: Entry, value: Option<string>): Verdict {
    if e.arg && value.None? then Exit(1) else Call(e.key, value)
  }

  lemma {:induction false} LongFinds(options: seq<Entry>, i: nat, j: nat, arg: string, name: string,
                                     value: Option<string>)
    requires i <= j && Named(options, name, j) && (arg == "help" ==> i == j)
    ensures LongFrom(options, i, arg, name, value) == Chosen(options[j], value)
    decreases j - i
  {
    if i < j {
      LongFinds(options, i + 1, j, arg, name, value);
    }
  }

  lemma {:induction false} LongMisses(options: seq<Entry>, i: nat, arg: string, name: string, value: Option<string>)
    requires forall j :: !Named(options, name, j)
    requires i <= |options| && forall k :: 0 <= k < i ==> Live(options[k]) && !Names(options[k], name)
    ensures LongFrom(options, i, arg, name, value)
         == Exit(if arg == "help" && i < |options| && Live(options[i]) then 0 else 1)
    decreases |options| - i
  {
    if i < |options| && Live(options[i]) {
      assert !Named(options, name, i);
      if arg != "help" {
        LongMisses(options, i + 1, arg, name, value);
      }
    }
  }

  lemma {:induction false} ShortFinds(options: seq<Entry>, i: nat, j: nat, key: char, value: Option<string>)
    requires i <= j && Keyed(options, key, j) && (key == 'h' ==> i == j)
    ensures ShortFrom(options, i, key, value) == Chosen(options[j], value)
    decreases j - i
  {
    if i < j {
      ShortFinds(options, i + 1, j, key, value);
    }
  }

  lemma {:induction false} ShortMisses(options: seq<Entry>, i: nat, key: char, value: Option<string>)
    requires forall j :: !Keyed(options, key, j)
    requires i <= |options| && forall k :: 0 <= k < i ==> Live(options[k]) && options[k].key != key as int
    ensures ShortFrom(options, i, key, value) == Exit(if key == 'h' && i < |options| && Live(options[i]) then 0 else 1)
    decreases |options| - i
  {
    if i < |options| && Live(options[i]) {
      assert !Keyed(options, key, i);
      if key != 'h' {
        ShortMisses(options, i + 1, key, value);
      }
    }
  }

  // ----- the forms of an option -----

  /** --name=value in one argument, --name and the value in the next, or --name as the last. */
  predicate LongAt(argv: seq<string>, n: nat, name: string, value: Option<string>, used: nat) {
    && n < |argv| && '=' !in name
    && ((value.Some? && used == 1 && argv[n] == "--" + name + "=" + value.value)
        || (argv[n] == "--" + name && n + 1 < |argv| && used == 2 && value == Some(argv[n + 1]))
        || (argv[n] == "--" + name && n + 1 == |argv| && used == 1 && value == None))
  }

  /** -kvalue in one argument, -k and the value in the next, or -k as the last. */
  predicate ShortAt(argv: seq<string>, n: nat, key: char, value: Option<string>, used: nat) {
    && n < |argv| && key != '-'
    && ((value.Some? && value.value != "" && used == 1 && argv[n] == "-" + [key] + value.value)
        || (argv[n] == "-" + [key] && n + 1 < |argv| && used == 2 && value == Some(argv[n + 1]))
        || (argv[n] == "-" + [key] && n + 1 == |argv| && used == 1 && value == None))
  }

  /** Every option but "-" has one of these forms. */
  lemma FormOf(argv: seq<string>, n: nat)
    returns (long: bool, name: string, key: char, value: Option<string>, used: nat)
    requires IsOption(argv, n) && argv[n] != "-"
    ensures if long then LongAt(argv, n, name, value, used) else ShortAt(argv, n, key, value, used)
  {
    name, key := "", argv[n][1];
    long := key == '-';
    if long {
      name, value, used := LongForm(argv, n);
    } else {
      value, used := ShortForm(argv, n);
    }
  }

  lemma LongForm(argv: seq<string>, n: nat) returns (name: string, value: Option<string>, used: nat)
    requires IsOption(argv, n) && |argv[n]| >= 2 && argv[n][1] == '-'
    ensures LongAt(argv, n, name, value, used)
  {
    var arg := argv[n][2..];
    var e := EqualsSign(arg);
    assert argv[n] == "--" + arg;
    hide EqualsSign;
    if e < |arg| {
      name, value, used := arg[..e], Some(arg[e + 1..]), 1;
      assert arg == name + "=" + arg[e + 1..];
      assert argv[n] == "--" + name + "=" + arg[e + 1..];
    } else {
      assert arg[..e] == arg;
      name, value, used := arg, Following(argv, n), if n + 1 < |argv| then 2 else 1;
    }
  }

  lemma ShortForm(argv: seq<string>, n: nat) returns (value: Option<string>, used: nat)
    requires IsOption(argv, n) && |argv[n]| >= 2 && argv[n][1] != '-'
    ensures ShortAt(argv, n, argv[n][1], value, used)
  {
    var a := argv[n];
    if |a| > 2 {
      value, used := Some(a[2..]), 1;
      assert a == "-" + [a[1]] + a[2..];
    } else {
      value, used := Following(argv, n), if n + 1 < |argv| then 2 else 1;
      assert a == "-" + [a[1]];
    }
  }

  lemma {:induction false} EqualsSignIn(name: string, value: string)
    requires '=' !in name
    ensures EqualsSign(name + "=" + value) == |name|
  {
    var s := name + "=" + value;
    if name != "" {
      assert s[0] == name[0] && s[1..] == name[1..] + "=" + value;
      EqualsSignIn(name[1..], value);
    }
  }

  lemma {:induction false} EqualsSignAtMost(s: string, k: nat)
    requires k < |s| && s[k] == '='
    ensures EqualsSign(s) <= k
  {
    if s[0] != '=' {
      EqualsSignAtMost(s[1..], k - 1);
    }
  }

  lemma {:induction false} EqualsSignNone(s: string)
    requires '=' !in s
    ensures EqualsSign(s) == |s|
  {
    if s != "" {
      EqualsSignNone(s[1..]);
    }
  }

  // ----- the verdict on every option -----

  lemma LongIs(options: seq<Entry>, argv: seq<string>, n: nat, name: string, value: Option<string>, used: nat)
    requires LongAt(argv, n, name, value, used)
    ensures IsOption(argv, n) && Used(argv, n) == used
    ensures Judge(options, argv, n) == LongFrom(options, 0, argv[n][2..], name, value)
    ensures argv[n][2..] == "help" <==> argv[n] == "--help"
  {
    var a := argv[n];
    if a == "--" + name {
      assert a[2..] == name && name[..|name|] == name;
      EqualsSignNone(name);
    } else {
      assert a[2..] == name + "=" + value.value;
      EqualsSignIn(name, value.value);
      assert a[2..][..|name|] == name && a[2..][|name| + 1..] == value.value;
    }
    assert a == "--" + a[2..];
  }

  /** A long option goes to the first entry whose name begins with it, with its value, which
      that entry may require; failing such an entry the program exits with a failure. But
      --help in full is taken for a request for help unless the first entry answers to it. */
  lemma LongVerdict(options: seq<Entry>, argv: seq<string>, n: nat, name: string, value: Option<string>, used: nat)
    requires LongAt(argv, n, name, value, used)
    ensures IsOption(argv, n) && Used(argv, n) == used
    ensures forall j: nat :: Named(options, name, j) && (argv[n] == "--help" ==> j == 0) ==>
      Judge(options, argv, n) == if options[j].arg && value.None? then Exit(1) else Call(options[j].key, value)
    ensures argv[n] != "--help" && (forall j :: !Named(options, name, j)) ==> Judge(options, argv, n) == Exit(1)
    ensures argv[n] == "--help" && !Named(options, name, 0) ==>
      Judge(options, argv, n) == Exit(if options != [] && Live(options[0]) then 0 else 1)
  {
    hide Judge, Used;
    LongIs(options, argv, n, name, value, used);
    forall j: nat | Named(options, name, j) && (argv[n] == "--help" ==> j == 0)
      ensures Judge(options, argv, n) == Chosen(options[j], value)
    {
      LongFinds(options, 0, j, argv[n][2..], name, value);
    }
    if forall j :: !Named(options, name, j) {
      LongMisses(options, 0, argv[n][2..], name, value);
    }
  }

  /** The same for short options, their keys and -h. */
  lemma ShortVerdict(options: seq<Entry>, argv: seq<string>, n: nat, key: char, value: Option<string>, used: nat)
    requires ShortAt(argv, n, key, value, used)
    ensures IsOption(argv, n) && Used(argv, n) == used
    ensures forall j: nat :: Keyed(options, key, j) && (key == 'h' ==> j == 0) ==>
      Judge(options, argv, n) == if options[j].arg && value.None? then Exit(1) else Call(options[j].key, value)
    ensures key != 'h' && (forall j :: !Keyed(options, key, j)) ==> Judge(options, argv, n) == Exit(1)
    ensures key == 'h' && !Keyed(options, key, 0) ==>
      Judge(options, argv, n) == Exit(if options != [] && Live(options[0]) then 0 else 1)
  {
    var a := argv[n];
    assert a[1] == key && (|a| > 2 ==> a[2..] == value.value);
    assert Judge(options, argv, n) == ShortFrom(options, 0, key, value) && Used(argv, n) == used;
    hide Judge, Used;
    forall j: nat | Keyed(options, key, j) && (key == 'h' ==> j == 0)
      ensures Judge(options, argv, n) == Chosen(options[j], value)
    {
      ShortFinds(options, 0, j, key, value);
    }
    if forall j :: !Keyed(options, key, j) {
      ShortMisses(options, 0, key, value);
    }
  }

  // ----- printing and parsing -----

  /** An option to be printed, its value in the same argument or apart from it in the next. */
  datatype Item = Long(name: string, value: string, apart: bool) | Short(key: char, value: string, apart: bool)

  function Print(x: Item): (args: seq<string>)
    ensures 1 <= |args| <= 2
  {
    match x
    case Long(name, value, apart) => if apart then ["--" + name, value] else ["--" + name + "=" + value]
    case Short(key, value, apart) => if apart then ["-" + [key], value] else ["-" + [key] + value]
  }

  function PrintAll(xs: seq<Item>): seq<string> {
    if xs == [] then [] else Print(xs[0]) + PrintAll(xs[1..])
  }

  /** x is what the arguments at n print. */
  predicate PrintedAt(argv: seq<string>, n: nat, x: Item) {
    n + |Print(x)| <= |argv| && argv[n..n + |Print(x)|] == Print(x)
  }

  /** What a caller must see to before printing an item meant for entry j: the name has no
      '=', begins the name of no earlier entry, and is not "help" apart from its value unless
      j is the first entry; no earlier entry has the key, a value in the same argument is
      not empty, and 'h' is only the first entry's key, since the code takes any other -h
      for a request for help. The key '-' makes a nameless long option. */
  ghost predicate Printable(options: seq<Entry>, x: Item, j: nat) {
    match x
    case Long(name, _, apart) => Named(options, name, j) && '=' !in name && (apart && name == "help" ==> j == 0)
    case Short(key, value, apart) =>
      && Keyed(options, key, j)
      && if key == '-' then apart && exists k: nat :: Named(options, "", k) && options[k].key == key as int
         else (apart || value != "") && (key == 'h' ==> j == 0)
  }

  lemma FirstPrinted(argv: seq<string>, n: nat, x: Item)
    requires PrintedAt(argv, n, x)
    ensures argv[n] == Print(x)[0] && (x.apart ==> n + 1 < |argv| && argv[n + 1] == x.value)
  {
    var s := argv[n..n + |Print(x)|];
    assert s[0] == argv[n] && (x.apart ==> s[1] == argv[n + 1]);
  }

  /** A printable item makes exactly the callback it was printed for, from its own arguments. */
  lemma PrintedIsJudged(options: seq<Entry>, argv: seq<string>, n: nat, x: Item, j: nat)
    requires PrintedAt(argv, n, x) && Printable(options, x, j)
    ensures IsOption(argv, n) && Used(argv, n) == |Print(x)|
    ensures Judge(options, argv, n) == Call(options[j].key, Some(x.value))
  {
    hide Judge, Used;
    FirstPrinted(argv, n, x);
    match x
    case Long(name, value, apart) =>
      NotHelp(name, value, argv[n]);
      LongVerdict(options, argv, n, name, Some(value), |Print(x)|);
    case Short(key, value, apart) =>
      if key == '-' {
        assert argv[n] == "--" + "" == "--";
        LongVerdict(options, argv, n, "", Some(value), 2);
      } else {
        ShortVerdict(options, argv, n, key, Some(value), |Print(x)|);
      }
  }

  lemma NotHelp(name: string, value: string, a: string)
    ensures a == "--" + name + "=" + value ==> a != "--help"
    ensures a == "--" + name && a == "--help" ==> name == "help"
  {
    if a == "--" + name + "=" + value {
      assert a[2 + |name|] == '=';
    } else if a == "--" + name {
      assert a[2..] == name;
    }
  }

  /** The callbacks a list of items is meant to cause, from argument n on. */
  function Meant(options: seq<Entry>, xs: seq<Item>, js: seq<nat>, n: nat): seq<Event>
    requires |xs| == |js| && forall i :: 0 <= i < |js| ==> js[i] < |options|
  {
    if xs == [] then []
    else
      var used := |Print(xs[0])|;
      [Event(options[js[0]].key, Some(xs[0].value), n, used)] + Meant(options, xs[1..], js[1..], n + used)
  }

  /** Printing items and parsing them delivers exactly those items, in order, and
      stops at the first argument after them that is no option. */
  lemma {:induction false} PrintParse(options: seq<Entry>, xs: seq<Item>, js: seq<nat>,
                                      before: seq<string>, rest: seq<string>)
    requires |xs| == |js| && forall i :: 0 <= i < |xs| ==> Printable(options, xs[i], js[i])
    requires rest == [] || rest[0] == "" || rest[0][0] != '-'
    ensures forall i :: 0 <= i < |js| ==> js[i] < |options|
    ensures Parse(options, before + PrintAll(xs) + rest, |before|)
         == Parsed(Meant(options, xs, js, |before|), Finished(|before| + |PrintAll(xs)|))
    decreases |xs|
  {
    hide Judge, Used, Parse, Print, PrintedAt;
    assert forall i :: 0 <= i < |js| ==> js[i] < |options| by {
      forall i | 0 <= i < |js| ensures js[i] < |options| { assert Printable(options, xs[i], js[i]); }
    }
    var n, argv := |before|, before + PrintAll(xs) + rest;
    ParseStep(options, argv, n);
    if xs == [] {
      assert argv == before + rest;
    } else {
      hide Printable;
      PrintMoves(before, xs, rest);
      PrintedIsJudged(options, argv, n, xs[0], js[0]);
      PrintParse(options, xs[1..], js[1..], before + Print(xs[0]), rest);
    }
  }

  lemma PrintMoves(before: seq<string>, xs: seq<Item>, rest: seq<string>)
    requires xs != []
    ensures PrintedAt(before + PrintAll(xs) + rest, |before|, xs[0])
    ensures before + Print(xs[0]) + PrintAll(xs[1..]) + rest == before + PrintAll(xs) + rest
    ensures |PrintAll(xs)| == |Print(xs[0])| + |PrintAll(xs[1..])|
  {
    hide Print;
    Pieces(before, Print(xs[0]), PrintAll(xs[1..]), rest);
  }

  lemma Pieces(b: seq<string>, p: seq<string>, q: seq<string>, r: seq<string>)
    ensures (b + (p + q) + r)[|b|..|b| + |p|] == p
    ensures b + p + q + r == b + (p + q) + r
  {
  }

  /** The condition is needed: a printed item that names entry j, the first entry with its
      key, reaches the callback with its own key and value, and by itself, exactly when the
      item is printable. */
  lemma DeliveredIff(options: seq<Entry>, argv: seq<string>, n: nat, x: Item, j: nat)
    requires PrintedAt(argv, n, x) && j < |options|
    requires forall i :: 0 <= i <= j ==> Live(options[i])
    requires forall i :: 0 <= i < j ==> options[i].key != options[j].key
    requires if x.Long? then Names(options[j], x.name) else options[j].key == x.key as int
    ensures IsOption(argv, n)
    ensures Printable(options, x, j)
       <==> Used(argv, n) == |Print(x)| && Judge(options, argv, n) == Call(options[j].key, Some(x.value))
  {
    FirstPrinted(argv, n, x);
    if Printable(options, x, j) {
      PrintedIsJudged(options, argv, n, x, j);
    } else {
      hide PrintedAt;
      match x {
        case Long(name, value, apart) => LongNotDelivered(options, argv, n, name, value, apart, j);
        case Short(key, value, apart) => ShortNotDelivered(options, argv, n, key, value, apart, j);
      }
    }
  }

  /** It is not itself the callback asked for, or not from so many arguments. */
  predicate Misses(options: seq<Entry>, argv: seq<string>, n: nat, key: int, value: string, apart: bool)
    requires IsOption(argv, n)
  {
    Judge(options, argv, n) != Call(key, Some(value)) || Used(argv, n) != if apart then 2 else 1
  }

  lemma LongNotDelivered(options: seq<Entry>, argv: seq<string>, n: nat, name: string, value: string, apart: bool,
                         j: nat)
    requires n < |argv| && argv[n] == Print(Long(name, value, apart))[0] && j < |options|
    requires apart ==> n + 1 < |argv| && argv[n + 1] == value
    requires forall i :: 0 <= i <= j ==> Live(options[i])
    requires forall i :: 0 <= i < j ==> options[i].key != options[j].key
    requires '=' in name || (exists i :: 0 <= i < j && Names(options[i], name)) || (apart && name == "help" && j > 0)
    ensures IsOption(argv, n) && Misses(options, argv, n, options[j].key, value, apart)
  {
    if '=' in name {
      EqualsSignMisses(options, argv, n, name, value, apart, options[j].key);
    } else {
      hide Judge, Used;
      LongIs(options, argv, n, name, Some(value), if apart then 2 else 1);
      if exists i :: 0 <= i < j && Names(options[i], name) {
        LongShadowed(options, 0, j, argv[n][2..], name, Some(value));
      } else {
        assert !Named(options, name, 0);
        LongVerdict(options, argv, n, name, Some(value), 2);
      }
    }
  }

  lemma EqualsSignMisses(options: seq<Entry>, argv: seq<string>, n: nat, name: string, value: string, apart: bool,
                         key: int)
    requires n < |argv| && argv[n] == Print(Long(name, value, apart))[0] && '=' in name
    ensures IsOption(argv, n) && Misses(options, argv, n, key, value, apart)
  {
    var arg := argv[n][2..];
    assert arg == if apart then name else name + "=" + value;
    var k :| 0 <= k < |name| && name[k] == '=';
    EqualsSignAtMost(arg, k);
    var e := EqualsSign(arg);
    var v := LongFrom(options, 0, arg, arg[..e], Some(arg[e + 1..]));
    if v.Call? && !apart {
      LongValue(options, 0, arg, arg[..e], Some(arg[e + 1..]));
      assert |arg[e + 1..]| > |value|;
    }
  }

  lemma {:induction false} LongShadowed(options: seq<Entry>, i: nat, j: nat, arg: string, prefix: string,
                                        value: Option<string>)
    requires i <= j < |options| && exists k :: i <= k < j && Names(options[k], prefix)
    requires forall k :: 0 <= k < j ==> options[k].key != options[j].key
    ensures LongFrom(options, i, arg, prefix, value) != Call(options[j].key, value)
    decreases j - i
  {
    if !Names(options[i], prefix) {
      LongShadowed(options, i + 1, j, arg, prefix, value);
    }
  }

  lemma ShortNotDelivered(options: seq<Entry>, argv: seq<string>, n: nat, key: char, value: string, apart: bool,
                          j: nat)
    requires n < |argv| && argv[n] == Print(Short(key, value, apart))[0]
    requires apart ==> n + 1 < |argv| && argv[n + 1] == value
    requires Keyed(options, key, j) && !Printable(options, Short(key, value, apart), j)
    ensures IsOption(argv, n) && Misses(options, argv, n, key as int, value, apart)
  {
    if key == '-' {
      DashMisses(options, argv, n, value, apart);
    } else {
      hide Judge, Used;
      var used := if n + 1 < |argv| then 2 else 1;
      if apart || value != "" {
        ShortVerdict(options, argv, n, key, Some(value), if apart then 2 else 1);
      } else {
        ShortVerdict(options, argv, n, key, Following(argv, n), used);
      }
    }
  }

  lemma DashMisses(options: seq<Entry>, argv: seq<string>, n: nat, value: string, apart: bool)
    requires n < |argv| && argv[n] == Print(Short('-', value, apart))[0]
    requires apart ==> n + 1 < |argv| && argv[n + 1] == value
    requires apart ==> forall k: nat :: Named(options, "", k) ==> options[k].key != '-' as int
    ensures IsOption(argv, n) && Misses(options, argv, n, '-' as int, value, apart)
  {
    if apart {
      hide Judge, Used;
      assert argv[n] == "--" + "" == "--";
      LongVerdict(options, argv, n, "", Some(value), 2);
    } else {
      assert argv[n][1] == '-' && argv[n][2..] == value;
      var e := EqualsSign(value);
      var prefix := if e < |value| then value[..e] else value;
      var v := if e < |value| then Some(value[e + 1..]) else Following(argv, n);
      if LongFrom(options, 0, value, prefix, v).Call? {
        LongValue(options, 0, value, prefix, v);
      }
    }
  }

  // ----- a request for help -----

  /** A table whose second entry has the key 'h', and an argument "-hx" for it: the
      parser prints help and exits instead of handing over "x". */
  lemma SecondEntryHIsHelp()
    ensures var options := [Entry(Some("all"), 'a' as int, false, true), Entry(Some("host"), 'h' as int, true, true),
                            Entry(None, 0, false, false)];
      && Terminated(options) && options[1].key == 'h' as int
      && Parse(options, ["program", "-hx"], 1) == Parsed([], Stopped(Exit(0)))
  {
    var options := [Entry(Some("all"), 'a' as int, false, true), Entry(Some("host"), 'h' as int, true, true),
                    Entry(None, 0, false, false)];
    assert Live(options[0]) && options[0].key != 'h' as int;
    assert Judge(options, ["program", "-hx"], 1) == ShortFrom(options, 0, 'h', Some("-hx"[2..])) == Exit(0);
  }
}

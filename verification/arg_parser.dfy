/**
 The option-table builder wrapped around the `arg` library. Options are
 declared with a friendly name, a main spelling, aliases and a type; the
 table maps each main spelling to its type and each alias to its main
 spelling. After parsing, every option found is reported under the
 spelling the library used and, for a main spelling, also under its
 friendly name.

 The library itself is not modelled: its result is a parameter, the list
 of `(key, value)` pairs in `Object.keys` order.
 */
module ArgParser {
  import opened Text

  /** The type constructor passed as the last argument of `flag`. */
  datatype ArgType = StringArg | BooleanArg

  /** An entry of the table handed to the library: a type, or the main spelling an alias stands for. */
  datatype OptEntry = TypeOf(t: ArgType) | AliasOf(main: string)

  /** A parsed value: a string, a flag, or the positional arguments under `_`. */
  datatype Value = Str(s: string) | Bool(b: bool) | Positional(args: seq<string>)

  datatype Parser = Parser(opts: map<string, OptEntry>, names: map<string, string>, helpText: Option<string>)

  /** The options object handed to the library along with the table. */
  datatype ArgConfig = ArgConfig(permissive: bool, argv: Option<seq<string>>)

  /** The outcome of `parse`: the options, or the help text printed before exiting. */
  datatype ParseOutcome = Options(rv: map<string, Value>) | ShowHelp(text: string)

  /** A fresh parser. */
  function NewParser(): Parser {
    Parser(map[], map[], None)
  }

  /** JavaScript truthiness of a parsed value. */
  predicate Truthy(v: Value) {
    match v
    case Str(s) => s != ""
    case Bool(b) => b
    case Positional(_) => true
  }

  // ---------------------------------------------------------------------
  // Declaring options

  /** `names.forEach(n => this._opts[n] = mainName)`, in order. */
  function RegisterAliases(opts: map<string, OptEntry>, aliases: seq<string>, main: string): map<string, OptEntry>
    decreases |aliases|
  {
    if |aliases| == 0 then opts
    else RegisterAliases(opts[aliases[0] := AliasOf(main)], aliases[1..], main)
  }

  /**
   `flag(name, main, ...aliases, type)`: the main spelling gets the type and
   the friendly name, then each alias is pointed at the main spelling.
   */
  function DeclareFlag(p: Parser, name: string, main: string, aliases: seq<string>, t: ArgType): Parser {
    Parser(RegisterAliases(p.opts[main := TypeOf(t)], aliases, main), p.names[main := name], p.helpText)
  }

  function DeclareString(p: Parser, name: string, main: string, aliases: seq<string>): Parser {
    DeclareFlag(p, name, main, aliases, StringArg)
  }

  function DeclareBool(p: Parser, name: string, main: string, aliases: seq<string>): Parser {
    DeclareFlag(p, name, main, aliases, BooleanArg)
  }

  /** `help(helpText, main, ...aliases)`: records the text and declares a boolean named `help`. */
  function DeclareHelp(p: Parser, helpText: string, main: string, aliases: seq<string>): Parser {
    DeclareBool(p.(helpText := Some(helpText)), "help", main, aliases)
  }

  lemma {:induction false} RegisterAliasesSpec(opts: map<string, OptEntry>, aliases: seq<string>, main: string)
    ensures var r := RegisterAliases(opts, aliases, main);
      (forall k :: k in r <==> k in opts || k in aliases)
      && (forall n :: n in aliases ==> n in r && r[n] == AliasOf(main))
      && (forall k :: k in opts && k !in aliases ==> k in r && r[k] == opts[k])
    decreases |aliases|
  {
    if |aliases| > 0 {
      var next := opts[aliases[0] := AliasOf(main)];
      RegisterAliasesSpec(next, aliases[1..], main);
      var r := RegisterAliases(next, aliases[1..], main);
      assert forall n :: n in aliases <==> n == aliases[0] || n in aliases[1..] by {
        assert aliases == [aliases[0]] + aliases[1..];
      }
    }
  }

  /**
   After declaring an option: the friendly name is recorded for the main
   spelling, every alias resolves to the main spelling, the main spelling
   carries the type unless it is also listed as its own alias (the later
   alias assignment wins), and nothing else in either table changes.
   */
  lemma {:induction false} DeclareFlagSpec(p: Parser, name: string, main: string, aliases: seq<string>, t: ArgType)
    ensures var r := DeclareFlag(p, name, main, aliases, t);
      r.names == p.names[main := name]
      && r.helpText == p.helpText
      && (forall k :: k in r.opts <==> k in p.opts || k == main || k in aliases)
      && (forall n :: n in aliases ==> n in r.opts && r.opts[n] == AliasOf(main))
      && (main !in aliases ==> main in r.opts && r.opts[main] == TypeOf(t))
      && (forall k :: k in p.opts && k != main && k !in aliases ==> k in r.opts && r.opts[k] == p.opts[k])
  {
    RegisterAliasesSpec(p.opts[main := TypeOf(t)], aliases, main);
  }

  /** `help` stores the text and declares the `help` boolean under the given spellings. */
  lemma {:induction false} DeclareHelpSpec(p: Parser, helpText: string, main: string, aliases: seq<string>)
    ensures var r := DeclareHelp(p, helpText, main, aliases);
      r.helpText == Some(helpText)
      && main in r.names && r.names[main] == "help"
      && (main !in aliases ==> main in r.opts && r.opts[main] == TypeOf(BooleanArg))
      && (forall n :: n in aliases ==> n in r.opts && r.opts[n] == AliasOf(main))
  {
    var q := p.(helpText := Some(helpText));
    DeclareFlagSpec(q, "help", main, aliases, BooleanArg);
    assert DeclareHelp(p, helpText, main, aliases) == DeclareFlag(q, "help", main, aliases, BooleanArg);
  }

  // ---------------------------------------------------------------------
  // Parsing

  /**
   The configuration handed to the library: always permissive, so that
   unknown options are kept as positional arguments, and with `argv` only
   when one is given (the library then reads the process arguments).
   */
  function Config(argv: Option<seq<string>>): ArgConfig {
    ArgConfig(true, argv)
  }

  /** The pair `e` writes key `x`: under its own spelling or under the friendly name of that spelling. */
  predicate Writes(names: map<string, string>, e: (string, Value), x: string) {
    e.0 == x || (e.0 in names && names[e.0] == x)
  }

  /** Pair `i` is the last one that writes key `x`. */
  predicate LastWriter(names: map<string, string>, entries: seq<(string, Value)>, x: string, i: int) {
    0 <= i < |entries| && Writes(names, entries[i], x)
    && forall j :: i < j < |entries| ==> !Writes(names, entries[j], x)
  }

  /** The key-renaming loop of `parse`, over the library's result in key order. */
  function RenameKeys(names: map<string, string>, entries: seq<(string, Value)>): map<string, Value>
    decreases |entries|
  {
    if |entries| == 0 then map[]
    else
      var rv := RenameKeys(names, entries[..|entries| - 1]);
      var e := entries[|entries| - 1];
      var withKey := rv[e.0 := e.1];
      if e.0 in names then withKey[names[e.0] := e.1] else withKey
  }

  /**
   `parse`: the renamed options, unless a help text was declared (and is
   not empty) and `help` came out truthy, in which case the help text is
   shown instead.
   */
  function Parse(p: Parser, entries: seq<(string, Value)>): ParseOutcome {
    var rv := RenameKeys(p.names, entries);
    if p.helpText.Some? && p.helpText.value != "" && "help" in rv && Truthy(rv["help"]) then
      ShowHelp(p.helpText.value)
    else
      Options(rv)
  }

  /** One more pair: it writes its keys and leaves every other key as it was. */
  lemma {:induction false} RenameKeysStep(names: map<string, string>, entries: seq<(string, Value)>)
    requires |entries| > 0
    ensures var prev := RenameKeys(names, entries[..|entries| - 1]);
      var e := entries[|entries| - 1];
      var rv := RenameKeys(names, entries);
      (forall x :: x in rv <==> x in prev || Writes(names, e, x))
      && (forall x :: Writes(names, e, x) ==> x in rv && rv[x] == e.1)
      && (forall x :: x in prev && !Writes(names, e, x) ==> x in rv && rv[x] == prev[x])
  {
  }

  /** The renamed result holds exactly the keys some pair writes. */
  lemma {:induction false} RenameKeysDomain(names: map<string, string>, entries: seq<(string, Value)>, x: string)
    ensures x in RenameKeys(names, entries) <==> exists i :: 0 <= i < |entries| && Writes(names, entries[i], x)
    decreases |entries|
  {
    if |entries| > 0 {
      var n := |entries| - 1;
      var init := entries[..n];
      RenameKeysStep(names, entries);
      RenameKeysDomain(names, init, x);
      if exists i :: 0 <= i < |init| && Writes(names, init[i], x) {
        var i :| 0 <= i < |init| && Writes(names, init[i], x);
        assert entries[i] == init[i];
      }
      if exists i :: 0 <= i < |entries| && Writes(names, entries[i], x) {
        var i :| 0 <= i < |entries| && Writes(names, entries[i], x);
        if i < n {
          assert init[i] == entries[i];
        }
      }
    }
  }

  /** Each key holds the value of the last pair that writes it: later pairs overwrite earlier ones. */
  lemma {:induction false} RenameKeysLastWins(names: map<string, string>, entries: seq<(string, Value)>, x: string, i: nat)
    requires LastWriter(names, entries, x, i)
    ensures x in RenameKeys(names, entries) && RenameKeys(names, entries)[x] == entries[i].1
    decreases |entries|
  {
    var n := |entries| - 1;
    var init := entries[..n];
    RenameKeysStep(names, entries);
    if i < n {
      assert init[i] == entries[i];
      assert !Writes(names, entries[n], x);
      forall j | i < j < |init| ensures !Writes(names, init[j], x) {
        assert init[j] == entries[j];
      }
      RenameKeysLastWins(names, init, x, i);
    }
  }

  /**
   An option given once and not shadowed by any other pair is reported
   under its own spelling and, for a declared main spelling, under its
   friendly name.
   */
  lemma {:induction false} RenameKeysSingle(names: map<string, string>, entries: seq<(string, Value)>, i: nat)
    requires i < |entries|
    requires forall j :: 0 <= j < |entries| && j != i ==>
      !Writes(names, entries[j], entries[i].0)
      && (entries[i].0 in names ==> !Writes(names, entries[j], names[entries[i].0]))
    ensures var rv := RenameKeys(names, entries);
      entries[i].0 in rv && rv[entries[i].0] == entries[i].1
      && (entries[i].0 in names ==> names[entries[i].0] in rv && rv[names[entries[i].0]] == entries[i].1)
  {
    var k := entries[i].0;
    RenameKeysLastWins(names, entries, k, i);
    if k in names {
      RenameKeysLastWins(names, entries, names[k], i);
    }
  }

  /** Some pair writes `x` exactly when a last such pair exists. */
  lemma {:induction false} LastWriterExists(names: map<string, string>, entries: seq<(string, Value)>, x: string, i: int)
    requires 0 <= i < |entries| && Writes(names, entries[i], x)
    ensures exists l :: i <= l < |entries| && LastWriter(names, entries, x, l)
    decreases |entries| - i
  {
    if !LastWriter(names, entries, x, i) {
      var j :| i < j < |entries| && Writes(names, entries[j], x);
      LastWriterExists(names, entries, x, j);
    }
  }

  /**
   `parse` shows the help text exactly when one was declared, it is not
   empty, and the last option the library reported under `help` or under a
   spelling whose friendly name is `help` has a truthy value; otherwise it
   returns the renamed options.
   */
  lemma {:induction false} ParseShowsHelp(p: Parser, entries: seq<(string, Value)>)
    ensures Parse(p, entries).ShowHelp? <==>
      p.helpText.Some? && p.helpText.value != ""
      && exists i :: LastWriter(p.names, entries, "help", i) && Truthy(entries[i].1)
    ensures Parse(p, entries).ShowHelp? ==> Parse(p, entries).text == p.helpText.value
    ensures Parse(p, entries).Options? ==> Parse(p, entries).rv == RenameKeys(p.names, entries)
  {
    var rv := RenameKeys(p.names, entries);
    RenameKeysDomain(p.names, entries, "help");
    if "help" in rv {
      var w :| 0 <= w < |entries| && Writes(p.names, entries[w], "help");
      LastWriterExists(p.names, entries, "help", w);
      var l :| w <= l < |entries| && LastWriter(p.names, entries, "help", l);
      RenameKeysLastWins(p.names, entries, "help", l);
      forall i | LastWriter(p.names, entries, "help", i)
        ensures i == l
      {
        assert !(i < l) && !(l < i);
      }
    } else {
      assert forall i :: !LastWriter(p.names, entries, "help", i);
    }
  }
}

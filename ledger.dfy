/**
 * The `ledger` command line: a client that runs a command and fails on any error output, and a
 * builder that collects arguments, options and accounts and lays them out in a fixed order.
 * Running the process is a function parameter from the command to its two output streams.
 */
module Ledger {
  import opened Wrappers
  import opened Text
  import opened OrderedMap

  /** The journal and the price database the client points `ledger` at. */
  datatype LedgerClient = LedgerClient(transactionsPath: string, priceDbPath: string)

  /** What the process writes to its standard output and its standard error. */
  datatype Output = Output(stdout: string, stderr: string)

  datatype LedgerError = LedgerClientException(stderr: string)

  /** `LedgerClient.call`: any error output fails the call with it; otherwise the standard output. */
  function Call(run: seq<string> -> Output, cmd: seq<string>): (r: Result<string, LedgerError>)
    ensures r.Err? <==> run(cmd).stderr != []
    ensures r.Err? ==> r.error == LedgerClientException(run(cmd).stderr)
    ensures r.Ok? ==> r.value == run(cmd).stdout
  {
    var out := run(cmd);
    if out.stderr != [] then Err(LedgerClientException(out.stderr)) else Ok(out.stdout)
  }

  // ---------------------------------------------------------------------------------------------
  // Options.

  /** `_to_option_name`: `--` and the key with every underscore turned into a hyphen. */
  function ToOptionName(key: string): (name: string)
    ensures |name| == |key| + 2 && name[..2] == "--"
    ensures forall i :: 0 <= i < |key| ==> name[i + 2] == (if key[i] == '_' then '-' else key[i])
  {
    "--" + ReplaceChar(key, '_', '-')
  }

  /** An option name holds no underscore, and a key without one is kept as it is. */
  lemma OptionNameHyphens(key: string)
    ensures '_' !in ToOptionName(key)
    ensures '_' !in key ==> ToOptionName(key) == "--" + key
  {
    var name := ToOptionName(key);
    forall i | 0 <= i < |name|
      ensures name[i] != '_'
    {
      if i >= 2 {
        assert name[i] == (if key[i - 2] == '_' then '-' else key[i - 2]);
      }
    }
    if '_' !in key {
      assert name[2..] == key;
      assert name == name[..2] + name[2..];
    }
  }

  /** A Python value's truth: an absent value and the empty string are false. */
  predicate Truthy(v: Option<string>) {
    v.Some? && v.value != []
  }

  /** The options after `add_options(**opts)`: each true value, in keyword order, set under its
      option name; a name already present keeps its place. */
  function WithOptions(m: seq<(string, string)>, opts: seq<(string, Option<string>)>): (r: seq<(string, string)>)
    ensures DistinctKeys(m) ==> DistinctKeys(r)
  {
    if opts == [] then m
    else
      var init := WithOptions(m, opts[..|opts| - 1]);
      var last := opts[|opts| - 1];
      if Truthy(last.1) then Put(init, ToOptionName(last.0), last.1.value) else init
  }

  /** Options already present stay where they are; new ones only follow them. */
  lemma {:induction false} WithOptionsKeepsPositions(m: seq<(string, string)>, opts: seq<(string, Option<string>)>)
    ensures |m| <= |WithOptions(m, opts)|
    ensures forall i :: 0 <= i < |m| ==> WithOptions(m, opts)[i].0 == m[i].0
  {
    if opts != [] {
      WithOptionsKeepsPositions(m, opts[..|opts| - 1]);
    }
  }

  /** Values that are all false change nothing. */
  lemma {:induction false} WithOptionsFalsy(m: seq<(string, string)>, opts: seq<(string, Option<string>)>)
    requires forall i :: 0 <= i < |opts| ==> !Truthy(opts[i].1)
    ensures WithOptions(m, opts) == m
  {
    if opts != [] {
      WithOptionsFalsy(m, opts[..|opts| - 1]);
    }
  }

  /** The last true value given for an option is the one it holds, and the other options keep
      their values. */
  lemma WithOptionsLast(m: seq<(string, string)>, opts: seq<(string, Option<string>)>, other: string)
    requires DistinctKeys(m) && opts != [] && Truthy(opts[|opts| - 1].1)
    ensures Get(WithOptions(m, opts), ToOptionName(opts[|opts| - 1].0)) == Some(opts[|opts| - 1].1.value)
    ensures other != ToOptionName(opts[|opts| - 1].0) ==>
              Get(WithOptions(m, opts), other) == Get(WithOptions(m, opts[..|opts| - 1]), other)
  {
    GetAfterPut(WithOptions(m, opts[..|opts| - 1]), ToOptionName(opts[|opts| - 1].0), opts[|opts| - 1].1.value, other);
  }

  // ---------------------------------------------------------------------------------------------
  // Accounts.

  /** The stripped, non-empty pieces among `pieces`, in order. */
  function StrippedNonEmpty(pieces: seq<string>): (r: seq<string>)
    ensures |r| <= |pieces|
    ensures forall i :: 0 <= i < |r| ==> r[i] != [] && !IsSpace(r[i][0]) && !IsSpace(r[i][|r[i]| - 1])
  {
    if pieces == [] then []
    else (if Strip(pieces[0], IsSpace) != [] then [Strip(pieces[0], IsSpace)] else []) + StrippedNonEmpty(pieces[1..])
  }

  /** The account list `ledger accounts` prints: one name per line, white space around a name and
      blank lines dropped. */
  function ParseAccounts(out: string): (names: seq<string>)
    ensures forall i :: 0 <= i < |names| ==> names[i] != [] && !IsSpace(names[i][0]) && !IsSpace(names[i][|names[i]| - 1])
  {
    StrippedNonEmpty(Split(out, '\n'))
  }

  /** An account name: non-empty, on one line, without white space at either end. */
  predicate AccountName(a: string) {
    a != [] && '\n' !in a && !IsSpace(a[0]) && !IsSpace(a[|a| - 1])
  }

  lemma {:induction false} StrippedNames(names: seq<string>)
    requires forall i :: 0 <= i < |names| ==> AccountName(names[i])
    ensures StrippedNonEmpty(names) == names
  {
    if names != [] {
      StripName(names[0]);
      StrippedNames(names[1..]);
    }
  }

  lemma StripName(a: string)
    requires AccountName(a)
    ensures Strip(a, IsSpace) == a
  {
    StripSurrounded([], a, [], IsSpace);
    assert [] + a + [] == a;
  }

  /** A trailing empty piece adds no name. */
  lemma {:induction false} StrippedEmptyLast(pieces: seq<string>)
    ensures StrippedNonEmpty(pieces + [[]]) == StrippedNonEmpty(pieces)
  {
    if pieces == [] {
      assert Strip([], IsSpace) == [];
      assert StrippedNonEmpty([[]]) == [] + StrippedNonEmpty([]);
    } else {
      assert (pieces + [[]])[1..] == pieces[1..] + [[]];
      StrippedEmptyLast(pieces[1..]);
    }
  }

  /** The names `ledger` prints one per line, with or without a final newline, are read back. */
  lemma ParseAccountsLines(names: seq<string>)
    requires |names| >= 1 && forall i :: 0 <= i < |names| ==> AccountName(names[i])
    ensures ParseAccounts(Join(names, "\n")) == names
    ensures ParseAccounts(Join(names + [[]], "\n")) == names
  {
    SplitJoin(names, '\n');
    assert forall i :: 0 <= i < |names + [[]]| ==> '\n' !in (names + [[]])[i] by {
      forall i | 0 <= i < |names + [[]]| ensures '\n' !in (names + [[]])[i] {
        if i < |names| {
          assert (names + [[]])[i] == names[i];
        }
      }
    }
    SplitJoin(names + [[]], '\n');
    StrippedNames(names);
    StrippedEmptyLast(names);
  }

  predicate OccursAt(s: string, p: string, i: int) {
    0 <= i <= |s| - |p| && s[i..i + |p|] == p
  }

  /** `pattern in account`. */
  predicate Contains(s: string, p: string) {
    exists i :: 0 <= i <= |s| - |p| && OccursAt(s, p, i)
  }

  /** Whether `pattern` selects `account`: the pattern, as a regular expression, matches at the
      start of the name (`matches`), or it occurs in the name. */
  predicate Hit(pattern: string, account: string, matches: (string, string) -> bool) {
    matches(pattern, account) || Contains(account, pattern)
  }

  predicate Selected(patterns: seq<string>, account: string, matches: (string, string) -> bool) {
    exists k :: 0 <= k < |patterns| && Hit(patterns[k], account, matches)
  }

  predicate NoDuplicates(s: seq<string>) {
    forall i, j :: 0 <= i < j < |s| ==> s[i] != s[j]
  }

  /** `list(result)` of a set: its elements once each, in an order the model leaves open. */
  method ListOfSet(s: set<string>) returns (r: seq<string>)
    ensures NoDuplicates(r)
    ensures forall a :: a in r <==> a in s
  {
    r := [];
    var rest := s;
    while rest != {}
      invariant NoDuplicates(r)
      invariant forall a :: a in r <==> a in s && a !in rest
      invariant rest <= s
      decreases |rest|
    {
      var a :| a in rest;
      r := r + [a];
      rest := rest - {a};
    }
  }

  // ---------------------------------------------------------------------------------------------
  // The builder.

  class LedgerCmd {
    const client: LedgerClient
    /** `["ledger", "-f", <journal>]`. */
    const cmdBase: seq<string>
    /** Option name to value, in first-insertion order. */
    var options: seq<(string, string)>
    var args: seq<string>
    var accounts: seq<string>

    predicate Valid()
      reads this
    {
      DistinctKeys(options)
    }

    /** A builder for `client`; `priceDbExists` is whether its price database file exists, in
        which case `--price-db` names it. */
    constructor (client: LedgerClient, priceDbExists: bool)
      ensures this.client == client && cmdBase == ["ledger", "-f", client.transactionsPath]
      ensures options == (if priceDbExists then [("--price-db", client.priceDbPath)] else [])
      ensures args == [] && accounts == []
      ensures Valid()
    {
      this.client := client;
      cmdBase := ["ledger", "-f", client.transactionsPath];
      options := if priceDbExists then [("--price-db", client.priceDbPath)] else [];
      args := [];
      accounts := [];
    }

    /** `_options_list`: names and values, alternating, in insertion order. */
    function OptionsList(): (r: seq<string>)
      reads this
      ensures |r| == 2 * |options|
      ensures forall i :: 0 <= i < |options| ==> r[2 * i] == options[i].0 && r[2 * i + 1] == options[i].1
    {
      FlattenItems(options)
    }

    /** `_list_accounts`: the accounts `ledger accounts` lists for the journal. */
    function ListAccounts(run: seq<string> -> Output): (r: Result<seq<string>, LedgerError>)
      ensures r.Err? <==> Call(run, cmdBase + ["accounts"]).Err?
      ensures r.Err? ==> r.error == Call(run, cmdBase + ["accounts"]).error
      ensures r.Ok? ==> r.value == ParseAccounts(Call(run, cmdBase + ["accounts"]).value)
    {
      var out :- Call(run, cmdBase + ["accounts"]);
      Ok(ParseAccounts(out))
    }

    /** `_search_accounts`: every listed account some pattern selects, each once. */
    method SearchAccounts(patterns: seq<string>, run: seq<string> -> Output, matches: (string, string) -> bool)
        returns (r: Result<seq<string>, LedgerError>)
      ensures r.Err? <==> ListAccounts(run).Err?
      ensures r.Err? ==> r.error == ListAccounts(run).error
      ensures r.Ok? ==> NoDuplicates(r.value)
      ensures r.Ok? ==> forall a :: a in r.value <==> a in ListAccounts(run).value && Selected(patterns, a, matches)
    {
      var listed :- ListAccounts(run);
      var result := SelectAccounts(listed, patterns, matches);
      var found := ListOfSet(result);
      r := Ok(found);
    }

    /** `add_options(**opts)`. */
    method AddOptions(opts: seq<(string, Option<string>)>)
      requires Valid()
      modifies this
      ensures Valid()
      ensures options == WithOptions(old(options), opts)
      ensures args == old(args) && accounts == old(accounts)
    {
      var i := 0;
      while i < |opts|
        invariant 0 <= i <= |opts|
        invariant options == WithOptions(old(options), opts[..i])
        invariant args == old(args) && accounts == old(accounts)
        invariant DistinctKeys(options)
      {
        assert opts[..i + 1][..i] == opts[..i];
        if Truthy(opts[i].1) {
          options := Put(options, ToOptionName(opts[i].0), opts[i].1.value);
        }
        i := i + 1;
      }
      assert opts[..i] == opts;
    }

    /** `add_arguments(*arguments)`. */
    method AddArguments(arguments: seq<string>)
      modifies this
      ensures args == old(args) + arguments
      ensures options == old(options) && accounts == old(accounts)
    {
      args := args + arguments;
    }

    /** `add_accounts(*patterns)`: the accounts the patterns select go after those already there; a
        failed listing adds none. */
    method AddAccounts(patterns: seq<string>, run: seq<string> -> Output, matches: (string, string) -> bool)
        returns (r: Result<(), LedgerError>)
      modifies this
      ensures options == old(options) && args == old(args)
      ensures r.Err? <==> ListAccounts(run).Err?
      ensures r.Err? ==> accounts == old(accounts)
      ensures r.Ok? ==> |old(accounts)| <= |accounts| && accounts[..|old(accounts)|] == old(accounts)
      ensures r.Ok? ==> NoDuplicates(accounts[|old(accounts)|..])
      ensures r.Ok? ==> forall a :: a in accounts[|old(accounts)|..] <==> a in ListAccounts(run).value && Selected(patterns, a, matches)
    {
      var found := SearchAccounts(patterns, run, matches);
      if found.Err? {
        return Err(found.error);
      }
      accounts := accounts + found.value;
      assert accounts[|old(accounts)|..] == found.value;
      r := Ok(());
    }

    /** `build`: the base command, then the arguments, the options and the accounts. */
    function Build(): (cmd: seq<string>)
      reads this
      ensures |cmd| == |cmdBase| + |args| + 2 * |options| + |accounts|
      ensures cmd[..|cmdBase|] == cmdBase
      ensures cmd[|cmdBase|..|cmdBase| + |args|] == args
      ensures cmd[|cmdBase| + |args|..|cmdBase| + |args| + 2 * |options|] == OptionsList()
      ensures cmd[|cmdBase| + |args| + 2 * |options|..] == accounts
    {
      var cmd := cmdBase + args + OptionsList() + accounts;
      assert cmd[..|cmdBase|] == cmdBase;
      assert cmd[|cmdBase|..|cmdBase| + |args|] == args;
      assert cmd[|cmdBase| + |args|..|cmdBase| + |args| + 2 * |options|] == OptionsList();
      cmd
    }

    /** `call`: runs the built command. */
    function CallBuilt(run: seq<string> -> Output): (r: Result<string, LedgerError>)
      reads this
      ensures r == Call(run, Build())
    {
      Call(run, Build())
    }
  }

  /** The loops of `_search_accounts`: the set of the accounts in `listed` some pattern selects. */
  method SelectAccounts(listed: seq<string>, patterns: seq<string>, matches: (string, string) -> bool)
      returns (result: set<string>)
    ensures forall a :: a in result <==> a in listed && Selected(patterns, a, matches)
  {
    result := {};
    var i := 0;
    while i < |patterns|
      invariant 0 <= i <= |patterns|
      invariant forall a :: a in result <==> a in listed && Selected(patterns[..i], a, matches)
    {
      result := AddHits(result, listed, patterns[i], matches);
      SelectedStep(patterns, i, matches);
      i := i + 1;
    }
    assert patterns[..i] == patterns;
  }

  /** The inner loop of `_search_accounts`: adds to `result` every account in `listed` that
      `pattern` selects. */
  method AddHits(result: set<string>, listed: seq<string>, pattern: string, matches: (string, string) -> bool)
      returns (r: set<string>)
    ensures forall a :: a in r <==> a in result || (a in listed && Hit(pattern, a, matches))
  {
    r := result;
    var j := 0;
    while j < |listed|
      invariant 0 <= j <= |listed|
      invariant forall a :: a in r <==> a in result || (a in listed[..j] && Hit(pattern, a, matches))
    {
      if matches(pattern, listed[j]) || Contains(listed[j], pattern) {
        r := r + {listed[j]};
      }
      assert listed[..j + 1] == listed[..j] + [listed[j]];
      j := j + 1;
    }
    assert listed[..j] == listed;
  }

  /** Selecting by one more pattern adds exactly the accounts it hits. */
  lemma SelectedStep(patterns: seq<string>, i: nat, matches: (string, string) -> bool)
    requires i < |patterns|
    ensures forall a :: Selected(patterns[..i + 1], a, matches) <==> Selected(patterns[..i], a, matches) || Hit(patterns[i], a, matches)
  {
    forall a
      ensures Selected(patterns[..i + 1], a, matches) <==> Selected(patterns[..i], a, matches) || Hit(patterns[i], a, matches)
    {
      if Selected(patterns[..i + 1], a, matches) {
        var k :| 0 <= k < i + 1 && Hit(patterns[..i + 1][k], a, matches);
        if k < i {
          assert patterns[..i][k] == patterns[..i + 1][k];
        }
      }
      if Selected(patterns[..i], a, matches) {
        var k :| 0 <= k < i && Hit(patterns[..i][k], a, matches);
        assert patterns[..i + 1][k] == patterns[..i][k];
      }
      if Hit(patterns[i], a, matches) {
        assert patterns[..i + 1][i] == patterns[i];
      }
    }
  }

  /** A fresh builder's command is the base command with `--price-db` when the price database
      exists, and arguments then accounts go where `build` puts them. */
  method FreshBuild(client: LedgerClient, priceDbExists: bool, arguments: seq<string>) returns (cmd: seq<string>)
    ensures priceDbExists ==> cmd == ["ledger", "-f", client.transactionsPath] + arguments + ["--price-db", client.priceDbPath]
    ensures !priceDbExists ==> cmd == ["ledger", "-f", client.transactionsPath] + arguments
  {
    var b := new LedgerCmd(client, priceDbExists);
    b.AddArguments(arguments);
    cmd := b.Build();
    assert b.OptionsList() == (if priceDbExists then ["--price-db", client.priceDbPath] else []);
    assert cmd == b.cmdBase + b.args + b.OptionsList() + b.accounts;
  }
}

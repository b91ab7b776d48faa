/** Worked examples of the protocol on small stacks. */
module Scenarios {
  import opened Wrappers
  import opened Text
  import opened Patterns
  import opened OrderedDict
  import opened Sorting
  import opened Sdiff

  /** The dict holding `v` under `k` alone. */
  function One<V>(k: nat, v: V): Dict<V> {
    Dict([k], map[k := v])
  }

  /** The dict holding `v0` under `k0`, then `v1` under `k1`. */
  function Two<V>(k0: nat, v0: V, k1: nat, v1: V): Dict<V> {
    Dict([k0, k1], map[k0 := v0, k1 := v1])
  }

  /** Folding two entries with distinct positions `k0` and `k1`. */
  lemma IndexTwo<T>(x0: T, x1: T, k0: nat, k1: nat)
    requires k0 != k1
    ensures Index([Entry(Some(k0), x0), Entry(Some(k1), x1)]) == Two(k0, x0, k1, x1)
  {
    var es := [Entry(Some(k0), x0), Entry(Some(k1), x1)];
    assert es[..1] == [Entry(Some(k0), x0)] && [Entry(Some(k0), x0)][..0] == [];
    assert Index([Entry(Some(k0), x0)][..0]) == Empty();
    assert Index([Entry(Some(k0), x0)]) == One(k0, x0);
  }

  /** A subject `[<c>/n]<title>` with a single digit `c` announces position `c`. */
  lemma DigitTrailer(c: char, title: string)
    requires IsDigit(c)
    ensures ParseTrailer(['[', c, '/', 'n', ']'] + title) == Some(DigitValue(c))
  {
    ParseTrailerDigits([c], title);
    assert "[" + [c] + "/n]" + title == ['[', c, '/', 'n', ']'] + title;
  }

  /** `git log` lists `[2/n] <bar>` (newest) then `[1/n] <foo>`. */
  lemma TwoCommits(h1: string, h2: string, foo: string, bar: string)
    ensures CommitIndex([h2, h1], ["[2/n]" + bar, "[1/n]" + foo])
            == Two(2, Commit(h2, "[2/n]" + bar), 1, Commit(h1, "[1/n]" + foo))
  {
    var msgs := ["[2/n]" + bar, "[1/n]" + foo];
    var es := CommitEntries(Zip([h2, h1], msgs));
    DigitTrailer('2', bar);
    DigitTrailer('1', foo);
    assert es == [Entry(Some(2), Commit(h2, msgs[0])), Entry(Some(1), Commit(h1, msgs[1]))];
    IndexTwo(Commit(h2, msgs[0]), Commit(h1, msgs[1]), 2, 1);
  }

  /** `git branch --list` lists `<base>-1` then `<base>-2`. */
  lemma TwoBranches(base: string)
    ensures BranchIndex(base, [base + "-1", base + "-2"])
            == Two(1, base + "-1", 2, base + "-2")
  {
    var names := [base + "-1", base + "-2"];
    assert Decimal(1) == "1" && Decimal(2) == "2";
    ParseBranchWritten(base, 1, "");
    ParseBranchWritten(base, 2, "");
    assert base + "-" + Decimal(1) + "" == names[0];
    assert base + "-" + Decimal(2) + "" == names[1];
    var es := BranchEntries(base, names);
    assert es == [Entry(Some(1), names[0]), Entry(Some(2), names[1])];
    IndexTwo(names[0], names[1], 1, 2);
  }

  /** Two stacked commits `[1/n] foo` and `[2/n] bar` with branches `base-1`
      and `base-2`: a confirmed run moves both branches, lowest position
      first, then pushes both with the sentinel. */
  lemma MatchingStackConfirmed(base: string, h1: string, h2: string, foo: string, bar: string, reply: string)
    requires Confirmed(reply)
    ensures Run(base, [h2, h1], ["[2/n]" + bar, "[1/n]" + foo], [base + "-1", base + "-2"], reply)
            == Success([["git", "branch", "-f", base + "-1", h1],
                        ["git", "branch", "-f", base + "-2", h2],
                        ["git", "push", "origin", base + "-1", base + "-2", base + "-MASTER", "--force-with-lease"]])
  {
    TwoCommits(h1, h2, foo, bar);
    TwoBranches(base);
    RunTwo(base, [h2, h1], ["[2/n]" + bar, "[1/n]" + foo], [base + "-1", base + "-2"], reply,
           h1, h2, "[1/n]" + foo, "[2/n]" + bar);
  }

  /** The commands that move `<base>-1` to `h1` and `<base>-2` to `h2`, then push. */
  function TwoStepCommands(base: string, h1: string, h2: string): seq<Argv> {
    [["git", "branch", "-f", base + "-1", h1],
     ["git", "branch", "-f", base + "-2", h2],
     ["git", "push", "origin", base + "-1", base + "-2", base + "-MASTER", "--force-with-lease"]]
  }

  /** Any run whose indexes are the two-position ones above. */
  lemma RunTwo(base: string, hashes: seq<string>, msgs: seq<string>, names: seq<string>, reply: string,
               h1: string, h2: string, m1: string, m2: string)
    requires CommitIndex(hashes, msgs) == Two(2, Commit(h2, m2), 1, Commit(h1, m1))
    requires BranchIndex(base, names) == Two(1, base + "-1", 2, base + "-2")
    requires Confirmed(reply)
    ensures Run(base, hashes, msgs, names, reply) == Success(TwoStepCommands(base, h1, h2))
  {
    var c := CommitIndex(hashes, msgs);
    var b := BranchIndex(base, names);
    SameKeysTwo(c, b, Commit(h2, m2), Commit(h1, m1), base + "-1", base + "-2");
    RunUnfolds(base, hashes, msgs, names, reply);
    CommandsTwo(base, c, b, h1, h2, m1, m2, reply);
  }

  /** Both two-position dicts above hold positions 1 and 2. */
  lemma SameKeysTwo<V, W>(c: Dict<V>, b: Dict<W>, v2: V, v1: V, w1: W, w2: W)
    requires c == Two(2, v2, 1, v1) && b == Two(1, w1, 2, w2)
    ensures c.entries.Keys == b.entries.Keys
  {
    assert c.entries.Keys == {1, 2} == b.entries.Keys;
  }

  /** The commands a confirmed run emits for two matching positions 1 and 2. */
  lemma CommandsTwo(base: string, c: Dict<Commit>, b: Dict<string>, h1: string, h2: string, m1: string, m2: string,
                    reply: string)
    requires c == Two(2, Commit(h2, m2), 1, Commit(h1, m1))
    requires b == Two(1, base + "-1", 2, base + "-2")
    requires Confirmed(reply)
    ensures c.Valid() && b.Valid() && c.entries.Keys == b.entries.Keys
    ensures Emit(base, Plan(c, b), b, reply) == TwoStepCommands(base, h1, h2)
  {
    assert c.entries.Keys == {1, 2} == b.entries.Keys;
    var steps := Plan(c, b);
    PlanTwo(c, b, steps);
    assert UpdateCommand(steps[0]) == ["git", "branch", "-f", base + "-1", h1];
    assert UpdateCommand(steps[1]) == ["git", "branch", "-f", base + "-2", h2];
    EmitTwo(base, b, steps, reply);
  }

  /** A run over matching indexes emits the commands for their plan. */
  lemma RunUnfolds(base: string, hashes: seq<string>, msgs: seq<string>, names: seq<string>, reply: string)
    requires CommitIndex(hashes, msgs).entries.Keys == BranchIndex(base, names).entries.Keys
    ensures var c := CommitIndex(hashes, msgs);
            var b := BranchIndex(base, names);
            Run(base, hashes, msgs, names, reply) == Success(Emit(base, Plan(c, b), b, reply))
  {
  }

  lemma PlanTwo(c: Dict<Commit>, b: Dict<string>, steps: seq<Step>)
    requires c.Valid() && b.Valid() && c.entries.Keys == b.entries.Keys
    requires c.order == [2, 1] && b.order == [1, 2]
    requires steps == Plan(c, b)
    ensures steps == [Step(1, b.entries[1], c.entries[1].hash, c.entries[1].message),
                      Step(2, b.entries[2], c.entries[2].hash, c.entries[2].message)]
  {
    SortTwoOne();
    StepsForTwo(c, b);
  }

  lemma StepsForTwo(c: Dict<Commit>, b: Dict<string>)
    requires 1 in c.entries && 2 in c.entries && 1 in b.entries && 2 in b.entries
    ensures StepsFor([1, 2], c, b) == [Step(1, b.entries[1], c.entries[1].hash, c.entries[1].message),
                                       Step(2, b.entries[2], c.entries[2].hash, c.entries[2].message)]
  {
  }

  lemma SortTwoOne()
    ensures Sort([2, 1]) == [1, 2]
  {
    assert [2, 1][..1] == [2];
    assert Sort([2]) == [2] by { assert [2][..0] == []; }
    assert Insert(1, [2]) == [1, 2];
  }

  /** The commands for a two-step plan over the branches `<base>-1`, `<base>-2`. */
  lemma EmitTwo(base: string, b: Dict<string>, steps: seq<Step>, reply: string)
    requires b == Two(1, base + "-1", 2, base + "-2")
    requires |steps| == 2
    requires Confirmed(reply)
    ensures Emit(base, steps, b, reply)
            == [UpdateCommand(steps[0]), UpdateCommand(steps[1]),
                ["git", "push", "origin", base + "-1", base + "-2", base + "-MASTER", "--force-with-lease"]]
  {
    PushTwo(base, b);
    var ups := seq(|steps|, i requires 0 <= i < |steps| => UpdateCommand(steps[i]));
    assert ups == [UpdateCommand(steps[0]), UpdateCommand(steps[1])];
    assert Emit(base, steps, b, reply) == ups + [PushCommand(base, b)];
  }

  lemma PushTwo(base: string, b: Dict<string>)
    requires b == Two(1, base + "-1", 2, base + "-2")
    ensures PushCommand(base, b)
            == ["git", "push", "origin", base + "-1", base + "-2", base + "-MASTER", "--force-with-lease"]
  {
    var vs := b.Values();
    assert vs == [base + "-1", base + "-2"] by {
      assert |vs| == 2 && vs[0] == base + "-1" && vs[1] == base + "-2";
    }
    assert PushCommand(base, b) == ["git", "push", "origin"] + vs + [Sentinel(base), "--force-with-lease"];
  }

  /** Folding one entry with position `k`. */
  lemma IndexOne<T>(x: T, k: nat)
    ensures Index([Entry(Some(k), x)]) == One(k, x)
  {
    assert [Entry(Some(k), x)][..0] == [];
    assert Index([Entry(Some(k), x)][..0]) == Empty();
  }

  /** A commit `[3/n] <baz>` without a branch `<base>-3` (only the sentinel
      exists): the run fails naming position 3 and emits nothing. */
  lemma CommitWithoutBranch(base: string, h3: string, baz: string, reply: string)
    ensures Run(base, [h3], ["[3/n]" + baz], [Sentinel(base)], reply) == Failure({3})
  {
    var msgs := ["[3/n]" + baz];
    var names := [Sentinel(base)];
    var c := CommitIndex([h3], msgs);
    var b := BranchIndex(base, names);
    assert c.entries.Keys == {3} by {
      OneCommit(h3, baz);
    }
    assert b.entries.Keys == {} by {
      SentinelCarriesNoPosition(base);
      assert ParseBranch(base, names[0]) == None;
    }
    MismatchIs(Run(base, [h3], msgs, names, reply), c.entries, b.entries, {3});
  }

  /** `git log` lists the single commit `[3/n] <baz>`. */
  lemma OneCommit(h3: string, baz: string)
    ensures CommitIndex([h3], ["[3/n]" + baz]) == One(3, Commit(h3, "[3/n]" + baz))
  {
    DigitTrailer('3', baz);
    CommitEntriesOne(h3, "[3/n]" + baz);
    IndexOne(Commit(h3, "[3/n]" + baz), 3);
  }

  /** `git log` with a single commit scans one entry. */
  lemma CommitEntriesOne(h: string, m: string)
    ensures CommitEntries(Zip([h], [m])) == [Entry(ParseTrailer(m), Commit(h, m))]
  {
  }

  /** A failed run over indexes that differ exactly on `diff` reports `diff`. */
  lemma MismatchIs<V, W>(r: Result<seq<Argv>, set<nat>>, c: map<nat, V>, b: map<nat, W>, diff: set<nat>)
    requires r.Failure? <==> c.Keys != b.Keys
    requires r.Failure? ==> forall k :: k in r.error <==> (k in c) != (k in b)
    requires forall k :: k in diff <==> (k in c) != (k in b)
    requires diff != {}
    ensures r == Failure(diff)
  {
    var k :| k in diff;
    assert c.Keys != b.Keys by {
      if k in c {
        assert k !in b;
      } else {
        assert k in b;
      }
    }
    assert forall k :: k in r.error <==> k in diff;
    assert r.error == diff;
  }

  /** A branch `<base>-5-old` without a commit `[5/n]`: the run fails naming
      position 5 and emits nothing. */
  lemma BranchWithoutCommit(base: string, reply: string)
    ensures Run(base, [], [], [base + "-5-old"], reply) == Failure({5})
  {
    var names := [base + "-5-old"];
    var c := CommitIndex([], []);
    var b := BranchIndex(base, names);
    OneBranch(base);
    assert b.entries.Keys == {5};
    assert c.entries.Keys == {};
    MismatchIs(Run(base, [], [], names, reply), c.entries, b.entries, {5});
  }

  /** `git branch --list` lists the single name `<base>-5-old`. */
  lemma OneBranch(base: string)
    ensures BranchIndex(base, [base + "-5-old"]) == One(5, base + "-5-old")
  {
    var names := [base + "-5-old"];
    ParseBranchDigits(base, "5", "-old");
    assert base + "-" + "5" + "-old" == names[0];
    assert BranchEntries(base, names) == [Entry(Some(5), names[0])];
    IndexOne(names[0], 5);
  }

  /** `"n"` declines. */
  lemma ReplyN()
    ensures !Confirmed("n")
  {
    StripPadded("", "n", "");
    assert "" + "n" + "" == "n";
  }

  /** `"Y"` declines: the comparison is case-sensitive. */
  lemma ReplyUpperY()
    ensures !Confirmed("Y")
  {
    StripPadded("", "Y", "");
    assert "" + "Y" + "" == "Y";
  }

  /** An empty reply declines. */
  lemma ReplyEmpty()
    ensures !Confirmed("")
  {
    assert TrimStart("") == "";
  }

  /** `" y\n"` confirms: surrounding whitespace is stripped first. */
  lemma ReplyPaddedY()
    ensures Confirmed(" y\n")
  {
    assert PaddedY(" y\n", 1) by {
      assert " y\n"[..1] == " ";
      assert " y\n"[2..] == "\n";
    }
    StripIsY(" y\n");
  }

  /** The matching stack of `MatchingStackConfirmed` answered with anything
      but a lone `y`: the run succeeds and emits no command. */
  lemma MatchingStackDeclined(base: string, h1: string, h2: string, foo: string, bar: string, reply: string)
    requires !Confirmed(reply)
    ensures Run(base, [h2, h1], ["[2/n]" + bar, "[1/n]" + foo], [base + "-1", base + "-2"], reply) == Success([])
  {
    TwoCommits(h1, h2, foo, bar);
    TwoBranches(base);
  }

  /** Branch names as `re.match` reads them: text after the digit run does
      not block a match, leading zeros are dropped, and a name with no digit
      right after `<base>-` carries no position. */
  lemma BranchNameReadings(base: string)
    ensures ParseBranch(base, base + "-3x") == Some(3)
    ensures ParseBranch(base, base + "-3-old") == Some(3)
    ensures ParseBranch(base, base + "-007") == Some(7)
    ensures ParseBranch(base, base + "-") == None
  {
    ParseBranchDigits(base, "3", "x");
    assert base + "-" + "3" + "x" == base + "-3x";
    ParseBranchDigits(base, "3", "-old");
    assert base + "-" + "3" + "-old" == base + "-3-old";
    ParseBranchDigits(base, "007", "");
    assert base + "-" + "007" + "" == base + "-007";
    var name := base + "-";
    assert name[|base| + 1..] == [];
  }
}

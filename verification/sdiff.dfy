/** The reconcile-and-update protocol of the `sdiff` tool: index the stack's
    commits and branches by position, refuse to act unless both cover the same
    positions, and, once the operator confirms, produce the `git` commands
    that move every branch onto its commit and push them all with a lease. */
module Sdiff {
  import opened Wrappers
  import opened Text
  import opened Patterns
  import opened OrderedDict
  import opened Sorting

  /** A commit of the stack: its hash and its subject line. */
  datatype Commit = Commit(hash: string, message: string)

  /** One line of the plan: branch `branch` at `position` moves to commit `hash`. */
  datatype Step = Step(position: nat, branch: string, hash: string, message: string)

  /** The argument vector of one `git` invocation. */
  type Argv = seq<string>

  /** How many commits `zip` pairs up. */
  function Paired(hashes: seq<string>, msgs: seq<string>): nat {
    if |hashes| < |msgs| then |hashes| else |msgs|
  }

  /** `zip(hashes, msgs)`: pairs by index, stopping at the shorter list. */
  function Zip(hashes: seq<string>, msgs: seq<string>): (cs: seq<Commit>)
    ensures |cs| == Paired(hashes, msgs)
    ensures forall i :: 0 <= i < |cs| ==> cs[i] == Commit(hashes[i], msgs[i])
  {
    if hashes == [] || msgs == [] then []
    else [Commit(hashes[0], msgs[0])] + Zip(hashes[1..], msgs[1..])
  }

  /** The commits `get_commits` scans, each with the position its trailer names. */
  function CommitEntries(cs: seq<Commit>): (es: seq<Entry<Commit>>)
    ensures |es| == |cs|
    ensures forall i :: 0 <= i < |cs| ==> es[i] == Entry(ParseTrailer(cs[i].message), cs[i])
  {
    if cs == [] then []
    else [Entry(ParseTrailer(cs[0].message), cs[0])] + CommitEntries(cs[1..])
  }

  /** Paired subject `i` carries a trailer, and no later paired subject
      carries the same position. */
  ghost predicate LastTrailer(hashes: seq<string>, msgs: seq<string>, i: int) {
    && 0 <= i < Paired(hashes, msgs)
    && ParseTrailer(msgs[i]).Some?
    && forall j :: i < j < Paired(hashes, msgs) ==> ParseTrailer(msgs[j]) != ParseTrailer(msgs[i])
  }

  /** `get_commits` after the two `git log` queries: the commits whose subject
      carries a trailer, keyed by position. `git log` lists the newest commit
      first, so of two commits claiming one position the older one is kept. */
  function CommitIndex(hashes: seq<string>, msgs: seq<string>): (d: Dict<Commit>)
    ensures d.Valid()
    ensures forall k :: k in d.entries <==>
              exists i :: 0 <= i < Paired(hashes, msgs) && ParseTrailer(msgs[i]) == Some(k)
    ensures forall k :: k in d.entries ==> ParseTrailer(d.entries[k].message) == Some(k)
    ensures forall i :: LastTrailer(hashes, msgs, i) ==>
              ParseTrailer(msgs[i]).value in d.entries &&
              d.entries[ParseTrailer(msgs[i]).value] == Commit(hashes[i], msgs[i])
  {
    var es := CommitEntries(Zip(hashes, msgs));
    var d := Index(es);
    CommitKeys(hashes, msgs);
    CommitValues(hashes, msgs, es, d);
    CommitLast(hashes, msgs);
    d
  }

  /** The positions `Index` finds among the scanned commits are the
      positions the paired subjects carry. */
  lemma CommitKeys(hashes: seq<string>, msgs: seq<string>)
    ensures forall k: nat :: Occurs(CommitEntries(Zip(hashes, msgs)), k) <==>
              exists i :: 0 <= i < Paired(hashes, msgs) && ParseTrailer(msgs[i]) == Some(k)
  {
    var es := CommitEntries(Zip(hashes, msgs));
    var n := Paired(hashes, msgs);
    assert |es| == n;
    assert forall i :: 0 <= i < n ==> es[i].key == ParseTrailer(msgs[i]);
    forall k: nat
      ensures Occurs(es, k) <==> exists i :: 0 <= i < n && ParseTrailer(msgs[i]) == Some(k)
    {
      if Occurs(es, k) {
        var i :| 0 <= i < |es| && es[i].key == Some(k);
        assert ParseTrailer(msgs[i]) == Some(k);
      }
      if exists i :: 0 <= i < n && ParseTrailer(msgs[i]) == Some(k) {
        var i :| 0 <= i < n && ParseTrailer(msgs[i]) == Some(k);
        assert es[i].key == Some(k);
      }
    }
  }

  /** Every commit `Index` stores carries the trailer of its own position. */
  lemma CommitValues(hashes: seq<string>, msgs: seq<string>, es: seq<Entry<Commit>>, d: Dict<Commit>)
    requires es == CommitEntries(Zip(hashes, msgs))
    requires Indexes(d, es)
    ensures forall k :: k in d.entries ==> ParseTrailer(d.entries[k].message) == Some(k)
  {
    forall k | k in d.entries
      ensures ParseTrailer(d.entries[k].message) == Some(k)
    {
      assert Entry(Some(k), d.entries[k]) in es;
    }
  }

  /** The last commit carrying a position is the one stored under it. */
  lemma CommitLast(hashes: seq<string>, msgs: seq<string>)
    ensures forall i :: LastTrailer(hashes, msgs, i) ==>
                            LastWith(CommitEntries(Zip(hashes, msgs)), i) &&
                            CommitEntries(Zip(hashes, msgs))[i] == Entry(ParseTrailer(msgs[i]), Commit(hashes[i], msgs[i]))
  {
    var es := CommitEntries(Zip(hashes, msgs));
    var n := Paired(hashes, msgs);
    assert |es| == n;
    assert forall i :: 0 <= i < n ==> es[i] == Entry(ParseTrailer(msgs[i]), Commit(hashes[i], msgs[i]));
    forall i | LastTrailer(hashes, msgs, i)
      ensures LastWith(es, i)
    {
    }
  }

  /** The names `get_branches` scans, each with the position it carries. */
  function BranchEntries(base: string, names: seq<string>): (es: seq<Entry<string>>)
    ensures |es| == |names|
    ensures forall i :: 0 <= i < |names| ==> es[i] == Entry(ParseBranch(base, names[i]), names[i])
  {
    if names == [] then []
    else [Entry(ParseBranch(base, names[0]), names[0])] + BranchEntries(base, names[1..])
  }

  /** Name `i` carries a position, and no later name carries the same one. */
  ghost predicate LastBranch(base: string, names: seq<string>, i: int) {
    && 0 <= i < |names|
    && ParseBranch(base, names[i]).Some?
    && forall j :: i < j < |names| ==> ParseBranch(base, names[j]) != ParseBranch(base, names[i])
  }

  /** `get_branches` after `git branch --list`: the names matching
      `<base>-<digits>`, keyed by position; a later duplicate overwrites. */
  function BranchIndex(base: string, names: seq<string>): (d: Dict<string>)
    ensures d.Valid()
    ensures forall k :: k in d.entries <==> exists i :: 0 <= i < |names| && ParseBranch(base, names[i]) == Some(k)
    ensures forall k :: k in d.entries ==> ParseBranch(base, d.entries[k]) == Some(k)
    ensures forall i :: LastBranch(base, names, i) ==>
              ParseBranch(base, names[i]).value in d.entries &&
              d.entries[ParseBranch(base, names[i]).value] == names[i]
  {
    var es := BranchEntries(base, names);
    var d := Index(es);
    BranchKeys(base, names);
    BranchValues(base, names, es, d);
    BranchLast(base, names);
    d
  }

  /** The positions `Index` finds among the scanned names are the positions
      the names carry. */
  lemma BranchKeys(base: string, names: seq<string>)
    ensures forall k: nat :: Occurs(BranchEntries(base, names), k) <==>
              exists i :: 0 <= i < |names| && ParseBranch(base, names[i]) == Some(k)
  {
    var es := BranchEntries(base, names);
    assert forall i :: 0 <= i < |names| ==> es[i].key == ParseBranch(base, names[i]);
    forall k: nat
      ensures Occurs(es, k) <==> exists i :: 0 <= i < |names| && ParseBranch(base, names[i]) == Some(k)
    {
      if Occurs(es, k) {
        var i :| 0 <= i < |es| && es[i].key == Some(k);
        assert ParseBranch(base, names[i]) == Some(k);
      }
      if exists i :: 0 <= i < |names| && ParseBranch(base, names[i]) == Some(k) {
        var i :| 0 <= i < |names| && ParseBranch(base, names[i]) == Some(k);
        assert es[i].key == Some(k);
      }
    }
  }

  /** Every name `Index` stores carries its own position. */
  lemma BranchValues(base: string, names: seq<string>, es: seq<Entry<string>>, d: Dict<string>)
    requires es == BranchEntries(base, names)
    requires Indexes(d, es)
    ensures forall k :: k in d.entries ==> ParseBranch(base, d.entries[k]) == Some(k)
  {
    forall k | k in d.entries
      ensures ParseBranch(base, d.entries[k]) == Some(k)
    {
      assert Entry(Some(k), d.entries[k]) in es;
    }
  }

  /** The last name carrying a position is the one stored under it. */
  lemma BranchLast(base: string, names: seq<string>)
    ensures forall i :: LastBranch(base, names, i) ==>
                            LastWith(BranchEntries(base, names), i) &&
                            BranchEntries(base, names)[i] == Entry(ParseBranch(base, names[i]), names[i])
  {
    var es := BranchEntries(base, names);
    assert forall i :: 0 <= i < |names| ==> es[i] == Entry(ParseBranch(base, names[i]), names[i]);
    forall i | LastBranch(base, names, i)
      ensures LastWith(es, i)
    {
    }
  }

  /** One step per position of `ps`, in the order of `ps`. */
  function StepsFor(ps: seq<nat>, commits: Dict<Commit>, branches: Dict<string>): (steps: seq<Step>)
    requires forall i :: 0 <= i < |ps| ==> ps[i] in commits.entries && ps[i] in branches.entries
    ensures |steps| == |ps|
    ensures forall i :: 0 <= i < |ps| ==> steps[i].position == ps[i]
    ensures forall i :: 0 <= i < |ps| ==>
              steps[i] == Step(ps[i], branches.entries[ps[i]], commits.entries[ps[i]].hash, commits.entries[ps[i]].message)
  {
    seq(|ps|, i requires 0 <= i < |ps| =>
      Step(ps[i], branches.entries[ps[i]], commits.entries[ps[i]].hash, commits.entries[ps[i]].message))
  }

  /** The plan `main` prints and then applies: one step per position, in
      ascending order, pairing the position's branch with its commit. */
  function Plan(commits: Dict<Commit>, branches: Dict<string>): (steps: seq<Step>)
    requires commits.Valid() && branches.Valid()
    requires commits.entries.Keys == branches.entries.Keys
    ensures forall i, j :: 0 <= i < j < |steps| ==> steps[i].position < steps[j].position
    ensures forall k :: k in commits.entries <==> exists i :: 0 <= i < |steps| && steps[i].position == k
    ensures forall i :: 0 <= i < |steps| ==>
              var p := steps[i].position;
              && p in commits.entries && p in branches.entries
              && steps[i] == Step(p, branches.entries[p], commits.entries[p].hash, commits.entries[p].message)
  {
    var ps := Sort(commits.order);
    SortedKeys(commits);
    assert forall i :: 0 <= i < |ps| ==> ps[i] in ps;
    StepsFor(ps, commits, branches)
  }

  /** `sorted(d)`: the keys of a dict, sorted, list each key once, ascending. */
  lemma SortedKeys<V>(d: Dict<V>)
    requires d.Valid()
    ensures SortedEnumeration(Sort(d.order), d.entries.Keys)
  {
    SortSameElements(d.order);
  }

  /** The guard of `main`: the run proceeds only when the commit and branch
      indexes cover the same positions, and otherwise fails naming exactly the
      positions found on one side only. */
  function Reconcile(commits: Dict<Commit>, branches: Dict<string>): (r: Result<seq<Step>, set<nat>>)
    requires commits.Valid() && branches.Valid()
    ensures r.Failure? <==> commits.entries.Keys != branches.entries.Keys
    ensures r.Failure? ==> r.error != {}
    ensures r.Failure? ==> forall k :: k in r.error <==> (k in commits.entries) != (k in branches.entries)
    ensures r.Success? ==> r.value == Plan(commits, branches)
  {
    var c := commits.entries.Keys;
    var b := branches.entries.Keys;
    SymmetricDifferenceEmpty(c, b);
    if c != b then Failure((c - b) + (b - c))
    else Success(Plan(commits, branches))
  }

  lemma SymmetricDifferenceEmpty(c: set<nat>, b: set<nat>)
    ensures (c - b) + (b - c) == {} <==> c == b
  {
    if (c - b) + (b - c) == {} {
      assert forall k :: k in c <==> k in b by {
        forall k ensures k in c <==> k in b {
          assert k !in (c - b) + (b - c);
        }
      }
    }
  }

  /** The reply `input` returned, after `.strip()`, is exactly `y`. */
  predicate Confirmed(reply: string) {
    Strip(reply) == "y"
  }

  /** The branch marking the top of the stack, always pushed. It carries the
      base but no stack position, so no scan ever indexes it. */
  function Sentinel(base: string): (s: string)
    ensures base <= s
    ensures ParseBranch(base, s) == None
  {
    SentinelCarriesNoPosition(base);
    base + "-MASTER"
  }

  /** `git branch -f <branch> <hash>` for one step of the plan. */
  function UpdateCommand(s: Step): Argv {
    ["git", "branch", "-f", s.branch, s.hash]
  }

  /** `git push origin <every indexed branch> <base>-MASTER --force-with-lease`:
      the refs pushed are exactly the indexed branches plus the sentinel. */
  function PushCommand(base: string, branches: Dict<string>): (argv: Argv)
    requires branches.Valid()
    ensures |argv| == |branches.entries| + 5
    ensures argv[..3] == ["git", "push", "origin"]
    ensures argv[|argv| - 1] == "--force-with-lease"
    ensures forall x :: x in argv[3..|argv| - 1] <==> x in branches.entries.Values || x == Sentinel(base)
  {
    var vs := branches.Values();
    ValuesAreStored(branches);
    assert |branches.order| == |branches.entries| by {
      assert forall k :: k in branches.entries.Keys <==> k in branches.order;
      DistinctCard(branches.order, branches.entries.Keys);
    }
    var argv := ["git", "push", "origin"] + vs + [Sentinel(base), "--force-with-lease"];
    assert argv[3..|argv| - 1] == vs + [Sentinel(base)];
    argv
  }

  /** A list without repetition is as long as the set of its elements. */
  lemma {:induction false} DistinctCard(s: seq<nat>, keys: set<nat>)
    requires Distinct(s)
    requires forall k :: k in keys <==> k in s
    ensures |keys| == |s|
  {
    if s != [] {
      var t := s[1..];
      assert forall k :: k in keys - {s[0]} <==> k in t by {
        forall k ensures k in keys - {s[0]} <==> k in t {
          assert k in s <==> k == s[0] || k in t by {
            assert s == [s[0]] + t;
          }
          if k in t {
            var j :| 0 <= j < |t| && t[j] == k;
            assert s[j + 1] == k;
          }
        }
      }
      DistinctCard(t, keys - {s[0]});
    }
  }

  /** What happens after the plan is shown: nothing unless the operator
      confirmed; else one `branch -f` per step in plan order, then the push. */
  function Emit(base: string, steps: seq<Step>, branches: Dict<string>, reply: string): (cmds: seq<Argv>)
    requires branches.Valid()
    ensures !Confirmed(reply) ==> cmds == []
    ensures Confirmed(reply) ==> |cmds| == |steps| + 1
    ensures Confirmed(reply) ==> forall i :: 0 <= i < |steps| ==> cmds[i] == UpdateCommand(steps[i])
    ensures Confirmed(reply) ==> cmds[|steps|] == PushCommand(base, branches)
  {
    if Confirmed(reply) then
      seq(|steps|, i requires 0 <= i < |steps| => UpdateCommand(steps[i])) + [PushCommand(base, branches)]
    else []
  }

  /** `main` as a pure function of what it reads: the branch base, the two
      `git log` listings, the `git branch` listing and the operator's reply.
      It yields the mismatch it raises, or the commands it would run. */
  function Run(base: string, hashes: seq<string>, msgs: seq<string>, names: seq<string>, reply: string)
    : (r: Result<seq<Argv>, set<nat>>)
    ensures var c := CommitIndex(hashes, msgs).entries;
            var b := BranchIndex(base, names).entries;
            && (r.Failure? <==> c.Keys != b.Keys)
            && (r.Failure? ==> forall k :: k in r.error <==> (k in c) != (k in b))
    ensures r.Success? && !Confirmed(reply) ==> r.value == []
    ensures r.Success? && Confirmed(reply) ==> |r.value| == |CommitIndex(hashes, msgs).entries| + 1
  {
    var commits := CommitIndex(hashes, msgs);
    var branches := BranchIndex(base, names);
    match Reconcile(commits, branches)
    case Failure(mismatch) => Failure(mismatch)
    case Success(steps) =>
      assert |steps| == |commits.entries| by {
        SortSameElements(commits.order);
        DistinctCard(commits.order, commits.entries.Keys);
      }
      Success(Emit(base, steps, branches, reply))
  }

  /** With matching indexes and a confirming reply, the run emits one
      `git branch -f <branch> <hash>` per position, visiting the positions
      once each in ascending order, and then the single lease-protected push. */
  lemma RunConfirmed(base: string, hashes: seq<string>, msgs: seq<string>, names: seq<string>, reply: string)
    requires CommitIndex(hashes, msgs).entries.Keys == BranchIndex(base, names).entries.Keys
    requires Confirmed(reply)
    ensures Run(base, hashes, msgs, names, reply).Success?
    ensures var c := CommitIndex(hashes, msgs);
            var b := BranchIndex(base, names);
            var cmds := Run(base, hashes, msgs, names, reply).value;
            && |cmds| == |c.entries| + 1
            && (exists ps :: && SortedEnumeration(ps, c.entries.Keys)
                             && |ps| + 1 == |cmds|
                             && forall i :: 0 <= i < |ps| ==>
                                  && ps[i] in c.entries && ps[i] in b.entries
                                  && cmds[i] == ["git", "branch", "-f", b.entries[ps[i]], c.entries[ps[i]].hash])
            && cmds[|cmds| - 1] == ["git", "push", "origin"] + b.Values() + [Sentinel(base), "--force-with-lease"]
  {
    var c := CommitIndex(hashes, msgs);
    var b := BranchIndex(base, names);
    var cmds := Emit(base, Plan(c, b), b, reply);
    assert Run(base, hashes, msgs, names, reply) == Success(cmds);
    ConfirmedCommands(base, c, b, reply);
  }

  /** `RunConfirmed` for any pair of indexes with the same positions. */
  lemma ConfirmedCommands(base: string, c: Dict<Commit>, b: Dict<string>, reply: string)
    requires c.Valid() && b.Valid() && c.entries.Keys == b.entries.Keys
    requires Confirmed(reply)
    ensures var cmds := Emit(base, Plan(c, b), b, reply);
            && (exists ps :: && SortedEnumeration(ps, c.entries.Keys)
                             && |ps| + 1 == |cmds|
                             && forall i :: 0 <= i < |ps| ==>
                                  && ps[i] in c.entries && ps[i] in b.entries
                                  && cmds[i] == ["git", "branch", "-f", b.entries[ps[i]], c.entries[ps[i]].hash])
            && cmds[|cmds| - 1] == ["git", "push", "origin"] + b.Values() + [Sentinel(base), "--force-with-lease"]
  {
    var steps := Plan(c, b);
    var cmds := Emit(base, steps, b, reply);
    var ps := seq(|steps|, i requires 0 <= i < |steps| => steps[i].position);
    PlanPositions(c, b, ps);
    UpdatesFollowSteps(c, b, steps, cmds, ps);
  }

  /** Each update command moves the step's branch onto the step's commit.
      Kept apart from `ConfirmedCommands` only so that each proof stays small. */
  lemma UpdatesFollowSteps(c: Dict<Commit>, b: Dict<string>, steps: seq<Step>, cmds: seq<Argv>, ps: seq<nat>)
    requires |ps| == |steps| < |cmds|
    requires forall i :: 0 <= i < |steps| ==> ps[i] == steps[i].position
    requires forall i :: 0 <= i < |steps| ==>
               var p := steps[i].position;
               && p in c.entries && p in b.entries
               && steps[i] == Step(p, b.entries[p], c.entries[p].hash, c.entries[p].message)
    requires forall i :: 0 <= i < |steps| ==> cmds[i] == UpdateCommand(steps[i])
    ensures forall i :: 0 <= i < |ps| ==>
              && ps[i] in c.entries && ps[i] in b.entries
              && cmds[i] == ["git", "branch", "-f", b.entries[ps[i]], c.entries[ps[i]].hash]
  {
  }

  /** The positions of the plan's steps enumerate the indexed positions. */
  lemma PlanPositions(c: Dict<Commit>, b: Dict<string>, ps: seq<nat>)
    requires c.Valid() && b.Valid() && c.entries.Keys == b.entries.Keys
    requires |ps| == |Plan(c, b)|
    requires forall i :: 0 <= i < |ps| ==> ps[i] == Plan(c, b)[i].position
    ensures SortedEnumeration(ps, c.entries.Keys)
  {
    var steps := Plan(c, b);
    forall k ensures k in c.entries.Keys <==> k in ps {
      if k in c.entries {
        var i :| 0 <= i < |steps| && steps[i].position == k;
        assert ps[i] == k;
      }
    }
  }

  /** The push names no ref twice: the indexed branches are distinct, and the
      sentinel `<base>-MASTER` is never one of them, since it carries no position. */
  lemma PushRefsDistinct(base: string, names: seq<string>)
    ensures var refs := BranchIndex(base, names).Values() + [Sentinel(base)];
            forall i, j :: 0 <= i < j < |refs| ==> refs[i] != refs[j]
  {
    var b := BranchIndex(base, names);
    ValuesDistinct(b);
    var vs := b.Values();
    var refs := vs + [Sentinel(base)];
    SentinelCarriesNoPosition(base);
    forall i, j | 0 <= i < j < |refs|
      ensures refs[i] != refs[j]
    {
      if j == |vs| {
        assert ParseBranch(base, vs[i]).Some?;
      }
    }
  }
}

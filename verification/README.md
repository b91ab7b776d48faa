# sdiff — the reconcile-and-update protocol, in Dafny

`sdiff` keeps a stack of commits and a set of branches in step. Each commit
of the stack announces its position with a subject trailer such as
`[3/n] fix parser`. Each branch carries its position in its name, as in
`feat-3` or `feat-3-old`. The top of the stack is the branch `feat-MASTER`.

The tool works in four steps:

1. It indexes both sides by position. For commits, a later commit on the
   same position overwrites an earlier one. `git log` lists newest first,
   so the oldest such commit wins. For branches, a later name on the same
   position overwrites an earlier one.
2. It refuses to act unless both indexes cover exactly the same positions.
   When they differ, it reports the positions found on one side only.
3. It shows the plan in ascending position order and asks for confirmation.
4. If the stripped reply is exactly `y`, it forces every branch onto its
   commit in ascending order. It then pushes all of them, plus
   `<base>-MASTER`, in one `git push --force-with-lease`.

The model makes this protocol a pure function:

```
Sdiff.Run(base, hashes, msgs, names, reply) : Result<seq<Argv>, set<nat>>
```

It returns either the mismatch that `main` raises or the argument vectors of
the `git` commands it would run. The inputs are:

- `hashes` and `msgs`: the two `git log` listings;
- `names`: the `git branch --list` listing;
- `reply`: what the operator typed.

Modules, one per file:

- `Wrappers` (`wrappers.dfy`): `Option` and `Result`.
- `Text` (`text.dfy`):
  - ASCII digits, decimal numerals, and the greedy `\d+` run;
  - Python's `str.isspace` code points and `str.strip()`.
- `OrderedDict` (`ordered_dict.dfy`): a Python `dict` with `nat` keys.
  - It keeps insertion order: an overwrite keeps a key's place, a new key goes last.
  - It provides the index fold `Index` over scanned entries, each an item
    tagged with the position its pattern found, if any.
- `Sorting` (`sorting.dfy`): `sorted()` on positions, as a functional insertion sort.
- `Patterns` (`patterns.dfy`): the commit-trailer and branch-name patterns,
  both applied with `re.match`.
- `Sdiff` (`sdiff.dfy`): commit and branch indexes, reconciliation, the plan,
  the confirmation gate, the commands, and `Run`.
- `Scenarios` (`scenarios.dfy`): worked examples on small stacks.

The branch pattern `{base}-(\d+)(-.*)?` is applied with `re.match`. That
anchors at the start of the name but not at the end. So `feat-3x` and
`feat-3-old` both carry position 3, while `feat-MASTER` carries none. The
model follows the code here. A fully anchored reading `^…$` would reject
`feat-3x`.

Duplicate positions in one scan overwrite silently. An error would arguably
be safer, but the model keeps the code's behaviour.

## Model

| member | source | states |
|---|---|---|
| Patterns.ParseTrailer | sdiff.py:31-33 | `re.match(r"\[(\d+)/n\].*", msg)` and `int(match[1])` as one optional position; what it yields is stated by `Patterns.ParseTrailerIff` |
| Patterns.ParseTrailerIff | sdiff.py:31-33 | a subject yields position `n` exactly when it starts with `[`, one or more digits worth `n`, then `/n]`; whatever follows is ignored |
| Patterns.ParseTrailerWritten | sdiff.py:31-33 | a subject written `[<n>/n]<title>` for any title yields `n` back (round trip with how `n` is printed) |
| Patterns.ParseBranch | sdiff.py:48-50 | `re.match(f"{base}-(\\d+)(-.*)?", name)` and `int(match[1])` as one optional position; what it yields is stated by `Patterns.ParseBranchIff` |
| Patterns.ParseBranchIff | sdiff.py:48-50 | a name yields `n` exactly when it starts with `<base>-` and the maximal digit run right after it is non-empty and worth `n`; nothing after the run is required (no end anchor) |
| Patterns.ParseBranchWritten | sdiff.py:48-50 | `<base>-<n>`, bare or followed by a suffix that does not start with a digit such as `-old` or `x`, yields `n` back |
| Patterns.SentinelCarriesNoPosition | sdiff.py:48-50 | `<base>-MASTER` never matches the branch pattern, so the sentinel is never indexed |
| Sdiff.Sentinel | sdiff.py:77 | the ref `f"{branch_base}-MASTER"` pushed after the indexed branches starts with the base yet never matches the branch pattern, so it is never one of the indexed branches |
| Text.LeadingDigits | sdiff.py:31 | the greedy `\d+` run is a digit-only prefix that stops at the end or at a non-digit |
| Text.DecimalValue | sdiff.py:33 | `int()` of an ASCII digit string, leading zeros allowed; that it inverts how numbers are printed is stated by `Text.DecimalRoundTrip` |
| Text.DecimalRoundTrip | sdiff.py:33 | `int()` of the printed numeral of `n` is `n` |
| Text.Strip | sdiff.py:71 | `strip()` returns a slice of the reply with only whitespace on either side, starting and ending with a non-space |
| Text.StripPadded | sdiff.py:71 | stripping `x` padded by whitespace gives back exactly `x` when `x` has no whitespace at its ends |
| Sdiff.Confirmed | sdiff.py:71 | the gate `input(...).strip() == "y"`; which replies pass is stated by `Text.StripIsY` |
| Text.StripIsY | sdiff.py:71 | the gate passes exactly for replies that are one `y` with only whitespace around it |
| OrderedDict.Dict.Put | sdiff.py:33 | `d[k] = v` stores `v` under `k`; an existing key keeps its place in the order, a new key goes last, and every key stays listed once; its effect over a whole scan is stated by `OrderedDict.IndexOrder` |
| OrderedDict.Index | sdiff.py:29-34 | folding scanned entries into an empty dict gives a well-formed dict whose keys are exactly the positions found; each stored item was scanned under its key; the last item found for a position is the one stored |
| OrderedDict.IndexOrder | sdiff.py:46-51 | the fold lists its keys in the order their first item was scanned; an overwrite does not move a key, which fixes the order of `found_branches.values()` |
| OrderedDict.Dict.Values | sdiff.py:76 | `found_branches.values()` lists `entries[order[i]]` for each key in insertion order, one value per key; `OrderedDict.ValuesAreStored` shows the listed values are exactly the stored ones and `OrderedDict.ValuesDistinct` that none repeats when no value is stored twice |
| OrderedDict.ValuesDistinct | sdiff.py:76 | a dict that stores no value under two keys lists no value twice in `values()` |
| Sdiff.Zip | sdiff.py:30 | `zip` pairs the i-th hash with the i-th subject and stops at the shorter list |
| Sdiff.CommitIndex | sdiff.py:29-34 | the commit index's keys are exactly the positions the paired subjects announce; every stored commit announces its own key; the last paired commit announcing a position is the one stored |
| Sdiff.BranchIndex | sdiff.py:46-51 | the branch index's keys are exactly the positions the names carry; every stored name carries its own key; the last name carrying a position is the one stored |
| Sorting.Sort | sdiff.py:69 | `sorted()` returns an ascending list with the same elements and multiplicities, strictly ascending when the input has no repeats |
| Sorting.SortSameElements | sdiff.py:69 | sorting keeps the length and exactly the elements |
| Sorting.AscendingUnique | sdiff.py:69 | two strictly ascending lists with the same elements are equal, so the visiting order is determined by the key set alone |
| Sdiff.SortedKeys | sdiff.py:69 | `sorted(found_commits)` lists every indexed position exactly once, in strictly ascending order |
| Sdiff.Plan | sdiff.py:69-73 | the plan visits every indexed position once, in strictly ascending order, and pairs each position's branch with its commit |
| Sdiff.PlanPositions | sdiff.py:69-73 | the plan's positions enumerate the indexed positions in strictly ascending order |
| Sdiff.Reconcile | sdiff.py:64-68 | the run fails exactly when the key sets differ; the reported set is non-empty and is exactly the symmetric difference; otherwise the plan follows |
| Sdiff.SymmetricDifferenceEmpty | sdiff.py:64-67 | the symmetric difference is empty exactly when the two key sets are equal |
| Sdiff.UpdateCommand | sdiff.py:73 | the argv `git branch -f <branch> <hash>` for one plan step; that the run emits it once per position in ascending order is stated by `Sdiff.RunConfirmed` |
| Sdiff.PushCommand | sdiff.py:74-78 | the push is `git push origin`, then refs that are exactly the indexed branch names plus `<base>-MASTER`, then `--force-with-lease` |
| Sdiff.PushRefsDistinct | sdiff.py:74-78 | the push names no ref twice: indexed names are distinct and differ from the sentinel |
| Sdiff.Emit | sdiff.py:71-78 | without confirmation nothing is emitted; with it, one `branch -f` per plan step in plan order, then exactly one push |
| Sdiff.Run | sdiff.py:62-78 | the run fails exactly when the indexes' key sets differ, naming the symmetric difference and emitting nothing; a declined run emits nothing; a confirmed run emits one command per position plus one |
| Sdiff.RunConfirmed | sdiff.py:71-78 | a confirmed matching run emits `git branch -f <branch> <hash>` for each position in strictly ascending order, then the push of `found_branches.values()` and `<base>-MASTER` |
| Sdiff.ConfirmedCommands | sdiff.py:72-78 | for any two matching indexes, the confirmed commands are the ascending `branch -f` updates followed by the push |
| Scenarios.TwoCommits | sdiff.py:29-34 | `git log` listing `[2/n] …` then `[1/n] …` indexes position 2 first, then 1, each with its own hash and subject |
| Scenarios.TwoBranches | sdiff.py:46-51 | the names `<base>-1`, `<base>-2` index positions 1 and 2 in that order |
| Scenarios.OneCommit | sdiff.py:29-34 | a lone commit `[3/n] …` indexes position 3 |
| Scenarios.OneBranch | sdiff.py:46-51 | a lone branch `<base>-5-old` indexes position 5 |
| Scenarios.MatchingStackConfirmed | sdiff.py:62-78 | two matching commits and branches, confirmed: exactly `branch -f <base>-1 h1`, `branch -f <base>-2 h2`, then `push origin <base>-1 <base>-2 <base>-MASTER --force-with-lease` |
| Scenarios.MatchingStackDeclined | sdiff.py:71 | the same stack with any reply that does not strip to `y` succeeds with no command |
| Scenarios.CommitWithoutBranch | sdiff.py:64-68 | a commit `[3/n]` with only the sentinel branch fails with exactly `{3}` |
| Scenarios.BranchWithoutCommit | sdiff.py:64-68 | a branch `<base>-5-old` with no commits fails with exactly `{5}` |
| Scenarios.BranchNameReadings | sdiff.py:48-50 | `<base>-3x` and `<base>-3-old` give 3, `<base>-007` gives 7, `<base>-` gives nothing |
| Scenarios.ReplyN | sdiff.py:71 | the reply `n` declines |
| Scenarios.ReplyUpperY | sdiff.py:71 | the reply `Y` declines: the comparison is case-sensitive |
| Scenarios.ReplyEmpty | sdiff.py:71 | an empty reply declines |
| Scenarios.ReplyPaddedY | sdiff.py:71 | the reply ` y` followed by a newline confirms |

## Left out

- Process I/O is not modelled: `run_print`, every `subprocess.check_output` call, and decoding git's output with `.decode().strip().split("\n")` (sdiff.py:7-9, 13-28, 38-45). The hash, subject and branch-name lists are inputs. For example, an empty listing reaches the scan as `[""]`, which matches nothing, so the model gives the same indexes. The model takes `msgs[i]` to be the i-th decoded line, not necessarily the subject of the commit `hashes[i]`. The two differ when the newest commit has an empty subject (possible with `git commit --allow-empty-message`): the `.strip()` at sdiff.py:26 removes that commit's empty first line of the `--format=%s` output, every later subject moves up one place, and `zip` at sdiff.py:30 pairs each hash with the subject of the next older commit. `git branch -f` at sdiff.py:73 then moves a branch to the wrong commit. The model inherits this pairing exactly as the source computes it, from the decoded lists.
- Argument parsing is not modelled (sdiff.py:54-57). `base` is a parameter.
- The console output is not modelled: the plan lines at sdiff.py:69-70, the `>>` echo, and the exception text. The plan `main` prints at sdiff.py:69-70 is the value of `Sdiff.Plan`. The exception is the `Failure` carrying its set of positions.
- Reading the reply with `input` is not modelled (sdiff.py:71). The reply is a parameter.
- What the remote and the local repository do with the commands is out of scope. That includes the lease check, and `check_output` aborting on a failed command. The model yields the commands; it does not run them.
- Regular-expression details are simplified. The base is matched literally, so a base containing regex metacharacters is not modelled. `\d` is the ASCII digits `0`-`9`, not every Unicode decimal digit.
- Sdiff.Run: its own contract gives only the count of commands emitted on a confirmed run. What each command is comes from `Sdiff.RunConfirmed` and `Sdiff.Emit`.
- Sdiff.PushCommand: its own contract states the pushed refs as a set. Their order is that of `found_branches.values()`. It is stated by `Sdiff.RunConfirmed`, `OrderedDict.IndexOrder` and `Sdiff.PushRefsDistinct`.
- Patterns.ParseTrailer: positions are unbounded naturals. CPython's `int()` at sdiff.py:33 raises `ValueError` for a digit run longer than 4300 digits (the default `sys.int_max_str_digits` from Python 3.11 and in the later 3.7-3.10 patch releases). That aborts the run before any command. The model reads such a run as its value instead.
- Patterns.ParseBranch: the same `int()` digit limit at sdiff.py:50 is not modelled; a branch whose digit run exceeds it aborts the source but is indexed by the model.
- Sdiff.Run: end of input on stdin makes `input()` at sdiff.py:71 raise `EOFError`, an abnormal exit rather than a decline. The reply is always a string in the model, so no reply stands for this case.

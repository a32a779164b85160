# GenericDrafter: a verified model of the draft pipeline

GenericDrafter reads a file of options, one per line, and deals "picks" to a
number of players. `run_drafter` in `src/lib.rs` runs the pipeline in three steps:

1. It reads the file.
2. `generate_picks` draws `num_players * num_picks` strings from the options.
   In the unique mode it draws without replacement: each draw copies a random
   element and removes it from the list. In the non-unique mode it draws one
   block per player. It re-draws a candidate while that player already holds it,
   so a block never repeats a string, but two players may share one.
3. `generate_players` cuts the flat pick list into consecutive groups of
   `num_picks` and numbers the players from 1.

`drafter.dfy` (module `Drafter`) models steps 2 and 3 and their composition as
methods with loops, in the same shape as the Rust code. The option list and the
pick lists are sequences of strings. The datatype `Player` models
`struct Player` (`src/lib.rs:10-13`): a number and its picks.

Randomness is a nondeterministic choice. Each `gen_range(0..len)` becomes
`var index :| 0 <= index < len`, so every contract holds for every answer the
generator could give. The unique mode also records the answers in a ghost
out-parameter. This lets it be proved equal to the specification function
`UniqueDraws`, which replays the loop on a given sequence of indices. The
conservation and distinctness properties are proved about that function.

The code panics or loops in some cases. Those cases are preconditions here:
- In the unique mode, `gen_range` on an empty range panics when there are fewer
  options than `num_players * num_picks`. The TODO at `src/lib.rs:16` names
  this panic.
- `generate_players` indexes out of bounds when the pick list has fewer than
  `num_players * num_picks` entries.
- In the non-unique mode, with at least one player and one pick, an empty
  option list makes the first draw at `src/lib.rs:49` panic on an empty range.
  Otherwise, a player that needs more picks than there are distinct options
  never leaves the re-draw loop at `src/lib.rs:52-55`: `RetryExhausted` proves
  that once it holds every distinct option, no re-draw can succeed. So the
  model requires `num_picks` to be at most the number of distinct options
  whenever there is at least one player. `FreshOptionExists` proves that this
  is enough for every draw.

Notes on the program's own text:
- The TODO at `src/lib.rs:15` names a second panic, in `read_file`. File
  reading is not part of this model.
- The checkbox for the unique mode is labelled "Disallow duplicates"
  (`src/app.rs:91`). The code removes by position, not by value. So no string
  is dealt twice when the file has no repeated lines; `GeneratePicks` and
  `RunDrafter` prove this. With repeated lines a string can be dealt twice;
  `UniqueModeMayRepeat` shows such a draw. What holds in general is that no
  string is dealt more often than it occurs in the file.
- `src/app.rs:95-98` matches on a `Result` from `run_drafter`. `src/lib.rs:17`
  returns a plain `Vec<Player>`. The model follows `src/lib.rs`.

## Model

| member | source | states |
|---|---|---|
| `Drafter.RemoveAt` | src/lib.rs:39 | `Vec::remove(index)`: the result is one shorter, elements before `index` stay where they are, later ones shift left by one, and the multiset loses exactly the removed element |
| `Drafter.UniqueDraws` | src/lib.rs:35-41 | after `k` draws of the unique-mode loop, `k` picks have been made and the option list has shrunk to `original - k` entries |
| `Drafter.UniqueDrawsConserve` | src/lib.rs:35-41 | loop invariant of the unique mode: the multiset of the picks plus the multiset of the remaining options equals the multiset of the original options |
| `Drafter.UniqueDrawsDistinct` | src/lib.rs:34-42 | when the options are pairwise distinct, the unique mode's picks are pairwise distinct, the leftover options are too, and no pick is still among the leftovers |
| `Drafter.UniqueDrawsFromOptions` | src/lib.rs:36-37 | every pick of the unique mode is one of the original options |
| `Drafter.FreshOptionExists` | src/lib.rs:52-55 | while a player holds fewer picks than there are distinct options, some option is not yet among its picks, so the re-draw loop can end |
| `Drafter.UniquePicks` | src/lib.rs:35-42 | the unique-mode loop makes exactly `num_players * num_picks` in-range draws, and its picks and leftover options are what `UniqueDraws` gives for the indices it drew |
| `Drafter.DrawPlayerPicks` | src/lib.rs:46-58 | one player's block has exactly `num_picks` entries, all taken from the options and pairwise distinct, because a colliding candidate is re-drawn before the push |
| `Drafter.NonUniquePicks` | src/lib.rs:45-63 | the non-unique mode yields `num_players * num_picks` picks, all from the options; within each player's block of `num_picks` no string repeats |
| `Drafter.GeneratePicks` | src/lib.rs:30-67 | `generate_picks` yields `num_players * num_picks` picks, all from the options; in the unique mode it deals no string more often than it occurs in the options, deals no string twice when the options are distinct, and replays `UniqueDraws` on the drawn indices; in the non-unique mode every player's block is duplicate-free |
| `Drafter.RetryExhausted` | src/lib.rs:52-55 | once a player's distinct picks cover every distinct option, every option is already among its picks, so no re-draw can succeed and a further pick would retry for ever |
| `Drafter.UniqueModeMayRepeat` | src/lib.rs:34-42 | removal is by position: from the options `["x", "x"]`, the in-range draws `[0, 0]` deal `"x"` twice, so the unique mode's picks need not be distinct when the options repeat |
| `Drafter.GeneratePlayers` | src/lib.rs:69-85 | exactly `num_players` players, player `i` (0-based) numbered `i + 1` and holding block `i` of the pick list |
| `Drafter.GroupingPickAt` | src/lib.rs:72-76 | in such a grouping player `i` has `num_picks` picks, and its pick `j` is entry `i * num_picks + j` of the pick list, an index that is in range |
| `Drafter.FlattenGrouping` | src/lib.rs:71-82 | the players' picks, read in player order, are exactly the prefix `pick_list[..num_players * num_picks]` |
| `Drafter.GroupingOfFlatten` | src/lib.rs:71-82 | the converse: any player list numbered from 1 with `num_picks` picks each is the grouping of its own concatenated picks |
| `Drafter.RunDrafter` | src/lib.rs:17-28 | the draft has `num_players` players numbered from 1, each with `num_picks` picks taken from the file's lines; in the unique mode the whole draft deals no line more often than it occurs in the file and no string twice when the lines are distinct; otherwise each player's picks are duplicate-free |

## Left out

- `read_file` (`src/lib.rs:97-107`) is file I/O. Its result is the `options` parameter of `RunDrafter`. The `path` parameter and the "Failed to read file" abort are not modelled.
- `print_draft` (`src/lib.rs:88-95`) only writes to standard output and is unused.
- All of `src/app.rs` is not part of this model: the egui/eframe user interface, the persisted settings and the link footer are a thin layer over third-party frameworks.
- The uniform distribution of `rand::thread_rng().gen_range` is not modelled. Every choice is treated as possible, and the contracts hold for all of them.
- DrawPlayerPicks: the re-draw loop at `src/lib.rs:52-55` ends only with probability one. The model keeps the first draw and, on a collision, makes one choice among the options the player does not hold yet. Those are exactly the outcomes the loop can end with. How many re-draws happen is not modelled.
- `usize` width is not modelled: counts are unbounded naturals. In a release build the product `num_players * num_picks` at `src/lib.rs:35` could wrap. The program never gets there: the sliders at `src/app.rs:86` and `src/app.rs:89` limit both counts to 1 to 10.
- Strings are opaque values compared by equality. The `to_string` copies of the source are plain value copies.

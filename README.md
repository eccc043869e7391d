# lootjestrekken — a Dafny model of the draw engine and the in-memory store

lootjestrekken ("drawing lots") runs a Secret Santa style draw. A *trekking* is a named
group: a roster of people (`People`), a flag saying whether the draw has happened
(`Getrokken`), and after the draw a mapping (`PeopleMapping`) that gives each roster
position the person it must buy a present for. The draw shuffles the roster. It then
computes the mapping with Sattolo's algorithm, so with at least two people nobody draws their
own position; a single participant draws themselves. The HTTP
layer keeps trekkings in a store keyed by name. It fetches a copy, edits it and writes it
back.

This project models two parts of the repository:

- `trekking.dfy`, module `Lootjestrekken`: the entity of `pkg/lootjestrekken/trekking.go`.
  - `Trekking` is a datatype. Go's pointer-receiver methods become operations that take the
    receiver as their first parameter `t` and return the updated value.
  - `RemovePerson`, `Trek`, `lpad`, `Derange` and the roster shuffle are methods with the
    source's loops and arrays.
  - `GetInfo` and `GetrokkenPerson` are functions.
  - Both random draws (`rand.Intn`, `rand.Shuffle`) are nondeterministic choices limited to
    their range. Every proof therefore covers every outcome of the random source.
  - `Derange` also returns a ghost index map σ with `result[k] == input[σ(k)]`. It proves that
    σ is a permutation and, from length 2 on, has no fixed point.
- `draw_properties.dfy`, module `DrawProperties`: what a drawn trekking guarantees and how
  the roster edits interact.
  - With at least two distinct names, each participant draws someone else on the roster.
  - No two participants draw the same person, and everybody is drawn.
  - With repeated names, the guarantee holds by position only.
  - Removing a name just added restores the roster when the name was new. When it was
    already there, an earlier copy goes, so only the same multiset of names remains.
  - With distinct names, the draw keeps them distinct, so for a roster of at least two
    distinct names the lookup guarantees hold for the roster the user built.
- `store.dfy`, module `Store`: `InMemoryStore` of `cmd/store/inmemory.go`. It is a class over
  a `map<string, Trekking>`, and each method is one atomic step on that map.
- `errors.dfy`, module `Errors`: Go's `error` results. A nil error is `None`; otherwise the
  result is one of the three error values the core creates, including the sentinel
  `ErrExists` of `cmd/store/store.go`.

Behaviours of the code that the model keeps, though a reader might expect otherwise:

- `Derange` on 0 or 1 elements returns an unchanged copy instead of failing.
- Removing an absent name drops the last roster entry.
- A second draw is allowed and replaces the earlier mapping.
- The in-memory store's update and enumeration calls never fail.
- Names are enumerated as a slice that holds each key once, not as a set.

## Model

| member | source | states |
|---|---|---|
| `Lootjestrekken.Lpad` | pkg/lootjestrekken/trekking.go:12-17 | the loop's result is exactly `PadLeft(s, pad, plength)`: one copy of `pad` for each count from `len(s)` up to `plength` |
| `Lootjestrekken.PadLeft` | pkg/lootjestrekken/trekking.go:12-17 | `s` is returned unchanged when it is at least `plength` long; the result ends with `s`, and before it stand exactly `plength - len(s)` copies of `pad`: that many copies' worth of characters, starting with `pad` and repeating with period `len(pad)`; with a one-character pad the result is `max(len(s), plength)` long |
| `Lootjestrekken.FirstIndex` | pkg/lootjestrekken/trekking.go:63-67 | the position where the roster search stops: the first occurrence of the name, or the roster length exactly when the name is absent |
| `Lootjestrekken.Derange` | pkg/lootjestrekken/trekking.go:72-82 | the result has the input's length and multiset; `result[k] == input[σ(k)]` for a permutation σ of the positions; from length 2 on, `σ(k) != k` for every k; below length 2 the result equals the input |
| `Lootjestrekken.SattoloStep` | pkg/lootjestrekken/trekking.go:76-79 | one swap of i with any `j < i` finalises position i with an element from elsewhere, keeps σ a permutation, and leaves every open position, now at most i - 1, holding its own element or one from position i or beyond |
| `Lootjestrekken.SattoloDone` | pkg/lootjestrekken/trekking.go:76-81 | when the countdown stops at position 0 after at least one swap, position 0 also holds an element from elsewhere, so no position keeps its element |
| `Lootjestrekken.Shuffle` | pkg/lootjestrekken/trekking.go:56 | the in-place shuffle of the roster leaves the same multiset of names |
| `Lootjestrekken.RemovedFirst` | pkg/lootjestrekken/trekking.go:39-50 | the roster shrinks by one; entries before the first occurrence stay, later ones move one place left; one copy of a present name leaves the multiset; an absent name drops the last entry |
| `Lootjestrekken.Trekking` | pkg/lootjestrekken/trekking.go:19-25 | the entity keeps the four fields `People`, `PeopleMapping`, `Getrokken` and `Name`; the embedded `gorm.Model` is dropped |
| `Lootjestrekken.AddPerson` | pkg/lootjestrekken/trekking.go:27-29 | the name is appended at the end; earlier entries, the mapping, the flag and the name are unchanged |
| `Lootjestrekken.GetInfo` | pkg/lootjestrekken/trekking.go:31-37 | before the draw the summary is the name; after it, spaces then the name, filling at least 30 characters, followed by " getrokken" |
| `Lootjestrekken.RemovePerson` | pkg/lootjestrekken/trekking.go:39-50 | the shift-left loop and the truncation produce `RemovedFirst` of the roster; the mapping, the flag and the name are unchanged; an empty roster is excluded, where Go panics |
| `Lootjestrekken.Trek` | pkg/lootjestrekken/trekking.go:52-60 | the result is marked drawn and keeps its name; the roster is a permutation of the old one; a roster without repeated names stays without them; the mapping is a derangement of the new roster (`Deranges`) of the same length; there is no guard against drawing twice |
| `Lootjestrekken.DistinctByMultiset` | pkg/lootjestrekken/trekking.go:52-60 | a reordering of a roster without repeated names has no repeated names either, which carries distinctness through the shuffle |
| `Lootjestrekken.ZeroTrekking` | cmd/store/inmemory.go:33 | Go's zero `Trekking{}`: empty roster and mapping, not drawn, no name; its summary is empty and every lookup fails with "not part of trekking" |
| `Lootjestrekken.GetrokkenPerson` | pkg/lootjestrekken/trekking.go:62-70 | for a name on the roster, the mapping entry at its first position, with no error; for an absent name, "" and the "not part of trekking" error; the found index must exist in the mapping |
| `DrawProperties.LookupAfterDraw` | pkg/lootjestrekken/trekking.go:52-70 | after a draw over at least two distinct names, every participant's lookup succeeds and returns someone else on the roster |
| `DrawProperties.DrawThenLookup` | pkg/lootjestrekken/trekking.go:52-70 | drawing a roster of at least two distinct names and then looking up a participant succeeds, and gives someone else from the roster the user built |
| `DrawProperties.LookupInjective` | pkg/lootjestrekken/trekking.go:52-70 | after a draw over distinct names, two different participants never draw the same person |
| `DrawProperties.LookupCovers` | pkg/lootjestrekken/trekking.go:52-70 | after a draw over distinct names, every participant is drawn by some participant |
| `DrawProperties.DistinctNamesNeverDrawThemselves` | pkg/lootjestrekken/shuffle_test.go:9-16 | with distinct inputs of length at least 2, no result position repeats the input at that position |
| `DrawProperties.RepeatedNamesCanMatch` | pkg/lootjestrekken/trekking.go:72-82 | with repeated names the guarantee is by position only: every derangement of ["a", "a", "b"] gives a person named "a" a person named "a" |
| `DrawProperties.AddThenRemove` | pkg/lootjestrekken/trekking.go:27-50 | removing a name just added restores the roster when the name was new, and otherwise leaves the same multiset of names |
| `Errors.Error.Message` | pkg/lootjestrekken/trekking.go:69 | the text of each error value: "not part of trekking" here, "trekking name not found" at cmd/store/inmemory.go:33, "name already exists" at cmd/store/store.go:8; never empty |
| `Errors.MessagesDiffer` | cmd/store/store.go:8 | the three error texts are pairwise distinct; it records only that, since the source compares `ErrExists` by identity, not by text |
| `Store.InMemoryStore.constructor` | cmd/store/inmemory.go:82-86 | a new store holds no trekkings |
| `Store.InMemoryStore.UpdateTrekking` | cmd/store/inmemory.go:15-23 | the trekking is written under its own name, whether or not the name was taken; all other entries are unchanged; the call never fails |
| `Store.InMemoryStore.GetTrekking` | cmd/store/inmemory.go:25-37 | for a stored name it returns the stored value with no error; otherwise it returns the zero trekking and "trekking name not found"; the map is never changed |
| `Store.InMemoryStore.GetTrekkingNames` | cmd/store/inmemory.go:39-50 | each stored name appears exactly once, the length equals the number of entries, and the order is unspecified |
| `Store.InMemoryStore.GetTrekkingInfos` | cmd/store/inmemory.go:52-63 | one string per stored trekking, in some visiting order that lists each name once; each string is that trekking's `GetInfo` |
| `Store.InMemoryStore.AddTrekking` | cmd/store/inmemory.go:65-80 | on a free name it stores the trekking, renamed to that name, and returns no error; on a taken name it returns `ErrExists` and nothing changes |
| `Store.AddTwiceThenGet` | cmd/store/inmemory.go:25-80 | a second registration under a name fails with `ErrExists` whatever it carries; the first value stays, and a lookup returns it |

## Left out

- Derange: proves that σ is a fixed-point-free permutation, not that it is the single n-cycle Sattolo's algorithm actually produces.
- The distribution of `rand.Intn` and `rand.Shuffle` is not modelled. Only the range of each drawn index is, because every outcome of the random source must satisfy the contracts.
- Shuffle: `rand.Shuffle` is library code that is not part of this model. It is modelled as a Fisher–Yates pass with j in [0, i], and its contract promises only that the result is a permutation.
- Lengths are counted in characters (`seq<char>`), while Go's `len` of a string counts UTF-8 bytes. With non-ASCII names, `lpad` and so `GetInfo` pad less in Go than in the model.
- Slice aliasing is not modelled. `RemovePerson` shifts the entries of the `People` backing array, and `Trek` shuffles it, in place. That array is shared with the copy the in-memory store holds, until `UpdateTrekking` writes the edited copy back. The model works on values, so each stored trekking is an independent copy.
- RemovePerson: an empty roster is excluded, since Go panics there (pkg/lootjestrekken/trekking.go:49 slices to `len - 1`). The HTTP handler calls it without checking for an empty roster (cmd/handler/handler.go:143-166), so a remove request on a freshly created trekking panics the server handler. The handler is not part of this model.
- The `gorm.Model` metadata embedded in `Trekking` and all logging calls are not modelled; they carry no logic of the core.
- The `sync.Mutex` and all concurrency are not modelled. Each store method is one atomic step, which the mutex ensures.
- The `Store` interface of cmd/store/store.go is represented by `InMemoryStore`'s methods, since traits are not used here. The bbolt-backed store of cmd/store/db.go is not part of this model: its behaviour rests on bbolt and `encoding/json`.
- The HTTP handler's checks are not modelled. It refuses to add or remove people once a trekking is drawn, and refuses a lookup before the draw. As in the source, the entity operations themselves do not check the flag.
- Go errors are compared as values of `Error`. The identity of an `errors.New` value and the rest of Go's `error` interface are not modelled.

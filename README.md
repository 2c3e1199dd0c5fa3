# gsh host configuration registry, in Dafny

This project models the query and ordering layer of the gsh host-configuration
registry (`hostconfig.go`, package `gsh`). One configuration file holds a
`Config`: a profile name, a default suffix, an ordered list of `HostConfig`
entries and an ordered list of `Operation` entries. Names are free-form and
need not be unique. The model covers:

- the three records, as Dafny datatypes: `Registry.Operation` (hostconfig.go:16-20), `Registry.HostConfig` (hostconfig.go:23-29) and `Registry.Config` (hostconfig.go:32-37). Each field keeps its Go type: `string`, `int`, `bool`, and slices as sequences;
- `Config.GetHost`, `Config.GetOperation` and `HostConfig.SupportsOp`. Each is a
  linear, early-return scan that stops at the first entry whose name matches the
  query, ignoring case. Each is a method with that loop, proved against a
  specification function (`FindHost`, `FindOperation`, `Supports`). The
  specification functions are built on one first-match index function, `FirstFold`;
- the sort adapters `ByName` and `OperationsByName`: `Len`, an in-place `Swap`, and
  a case-sensitive `Less` on names.

Modules:

- `Fold` (fold.dfy) is case-insensitive comparison. `strings.EqualFold` is modelled
  with ASCII case folding: two strings are equal under folding when they have the
  same length and agree character by character once `'A'..'Z'` are mapped to
  `'a'..'z'`. The module proves that this relation is reflexive, symmetric and
  transitive, and that it agrees with comparing lower-cased strings.
- `Order` (order.dfy) holds `Order.StringLess`, the string order that `Less` uses. It models Go's `<` on
  strings (hostconfig.go:111, 117). It also holds the `Swapped` sequence that `Swap` produces. Go compares strings byte
  by byte. Here strings are sequences of Unicode scalar values, and UTF-8 preserves
  their order, so comparing character codes gives the same answer.
- `Registry` (registry.dfy) holds the records and the lookups.
- `ByName` and `OperationsByName` (by_name.dfy) are the sort adapters. A Go slice
  shares its backing array with the caller, so the adapters work on a Dafny
  `array`, and `Swap` changes it in place.

The lookups return a pointer to the loop variable, so the caller gets a shallow copy
of the matching record. They never change the `Config` they are called on. In the model
the records are immutable values: the lookups return `Option<HostConfig>` /
`Option<Operation>` holding that copy, and "nil" is `None`.

## Model

| member | source | states |
|---|---|---|
| `Registry.GetHost` | hostconfig.go:68-75 | Returns a copy of the first host whose name equal-folds the query. Returns None exactly when no host name equal-folds it, including for an empty host list. |
| `Registry.GetOperation` | hostconfig.go:79-86 | Returns a copy of the first operation whose name equal-folds the query. Returns None exactly when no operation name equal-folds it, including for an empty list. |
| `Registry.SupportsOp` | hostconfig.go:89-96 | True exactly when some supported operation name equal-folds the argument. False for an empty list. |
| `Registry.FirstFold` | hostconfig.go:69-74 | The position the scan stops at: the lowest index at or after the start whose name equal-folds the query, with no match before it. None exactly when no name from the start onward matches. |
| `Registry.FindHost` | hostconfig.go:68-75 | Specification of GetHost. None exactly when no host name matches. Otherwise the value is the host stored at some index i whose name matches, and no host before i matches. |
| `Registry.FindOperation` | hostconfig.go:79-86 | Specification of GetOperation, with the same first-match and not-found contract over the operations. |
| `Registry.Supports` | hostconfig.go:89-96 | Specification of SupportsOp: true exactly when some supported operation name equal-folds the argument. |
| `Registry.FirstFoldUnique` | hostconfig.go:69-72 | An index whose name matches, with no match before it, is exactly the index the scan returns. |
| `Registry.FirstFoldCaseInsensitive` | hostconfig.go:70 | Two queries that equal-fold each other make the scan stop at the same position. |
| `Registry.FindHostFirstMatch` | hostconfig.go:69-72 | If host i is the first host whose name matches, GetHost returns exactly that host. Duplicates after i are never returned. |
| `Registry.FindOperationFirstMatch` | hostconfig.go:80-83 | If operation i is the first operation whose name matches, GetOperation returns exactly that operation. |
| `Registry.GetHostCaseInsensitive` | hostconfig.go:70 | Queries that equal-fold each other give the same GetHost result. |
| `Registry.GetOperationCaseInsensitive` | hostconfig.go:81 | Queries that equal-fold each other give the same GetOperation result. |
| `Registry.SupportsCaseInsensitive` | hostconfig.go:91 | Arguments that equal-fold each other give the same SupportsOp answer. |
| `Registry.ProdExample` | hostconfig.go:68-96 | Profile "prod" has one host "web1" that permits "deploy" and "restart". The query "WEB1" finds that host, which supports "DEPLOY" and not "rollback". Looking up an operation in an empty operation list gives None. |
| `Fold.Lower` | hostconfig.go:70 | The folded character is never an upper-case ASCII letter. An upper-case letter maps to its lower-case partner. Every other character is unchanged. |
| `Fold.LowerIdentifiesCase` | hostconfig.go:70 | Two characters fold to the same character exactly when they are equal or differ only in ASCII case. |
| `Fold.FoldString` | hostconfig.go:70 | Lower-cases a string position by position and keeps its length. |
| `Fold.EqualFold` | hostconfig.go:70 | The model of `strings.EqualFold`. Two strings equal-fold exactly when they have the same length and their characters agree position by position after ASCII lower-casing. Equivalently, their lower-cased forms are equal. |
| `Fold.EqualFoldReflexive` | hostconfig.go:70 | Every name equal-folds itself. |
| `Fold.EqualFoldSymmetric` | hostconfig.go:91 | The argument order of EqualFold does not matter. SupportsOp passes the query first, while the lookups pass the stored name first. |
| `Fold.EqualFoldTransitive` | hostconfig.go:70 | Equal-folding is transitive. |
| `Fold.EqualFoldSameQuery` | hostconfig.go:81 | Replacing a query by one that equal-folds it changes no comparison against a stored name. |
| `Order.StringLess` | hostconfig.go:111 | Go's `<` on names. `a` sorts before `b` exactly when they first differ at some position k: the first k characters agree, and either `a` ends at k while `b` goes on, or `a` has the smaller character at k. |
| `Order.StringLessIrreflexive` | hostconfig.go:111 | No name sorts before itself. |
| `Order.StringLessAsymmetric` | hostconfig.go:111 | If a sorts before b, b does not sort before a. |
| `Order.StringLessTransitive` | hostconfig.go:117 | The name order is transitive. |
| `Order.StringLessTotal` | hostconfig.go:117 | Of two different names, one sorts before the other. |
| `Order.UpperBeforeLower` | hostconfig.go:111 | The order is case-sensitive: every upper-case ASCII letter sorts before every lower-case one. So "A" precedes "a", although the lookups treat them as the same name. |
| `Order.Swapped` | hostconfig.go:110 | Same length. The elements at i and j are exchanged, and every other position is unchanged. |
| `Order.SwappedPermutes` | hostconfig.go:116 | Exchanging two positions gives a permutation: the multiset of elements is unchanged. |
| `Order.SwappedTwice` | hostconfig.go:110 | Exchanging the same two positions twice restores the original sequence. |
| `ByName.Len` | hostconfig.go:109 | The number of hosts in the slice. |
| `ByName.Swap` | hostconfig.go:110 | The hosts become the old hosts with positions i and j exchanged. The other positions are unchanged, and the result is a permutation of the old hosts. |
| `ByName.Less` | hostconfig.go:111 | False when the two names are equal, so false for i == j. When true, host j does not sort before host i. For different names, exactly one of the two sorts first. |
| `ByName.LessTransitive` | hostconfig.go:111 | Less on host positions is transitive, so together with Less's own contract it is a strict order. |
| `OperationsByName.Len` | hostconfig.go:115 | The number of operations in the slice. |
| `OperationsByName.Swap` | hostconfig.go:116 | The operations become the old ones with positions i and j exchanged. The other positions are unchanged, and the result is a permutation of the old operations. |
| `OperationsByName.Less` | hostconfig.go:117 | False when the two names are equal. When true, operation j does not sort before operation i. For different names, exactly one of the two sorts first. |
| `OperationsByName.LessTransitive` | hostconfig.go:117 | Less on operation positions is transitive, so it is a strict order. |

## Left out

- `LoadConfigs` (hostconfig.go:41-64) is left out. It finds `gsh-*.json` files with a filesystem glob, reads them, and decodes them with the JSON library, discarding the decoder's error. It stops the process on I/O errors. All of this is I/O around a foreign decoder, so the JSON field names are not modelled either.
- `getHomeDir` (hostconfig.go:98-104) is left out: it is an operating-system user lookup.
- The global `CurrentConfig` (hostconfig.go:13) is left out. Nothing in the file reads or writes it.
- Sorting itself (`sort.Sort` / `sort.Stable`) lives in the Go standard library, which is not part of this model. Only the `Len` / `Swap` / `Less` primitives are modelled, so sortedness and stability are not claimed.
- `hostconfig_test.go` only calls `LoadConfigs` against the real home directory, so it has nothing to model.
- Fold.EqualFold: `strings.EqualFold` (hostconfig.go:70, 81, 91) uses Unicode simple case folding. The model folds ASCII letters only, so Go matches non-ASCII pairs that the model does not, such as 'é' and 'É', or the Kelvin sign and 'k'.
- Go strings are byte strings that may hold invalid UTF-8. The model's strings are sequences of Unicode scalar values.
- `HostConfig.Port` is a Go `int` (32 or 64 bits, depending on the platform). The model uses an unbounded `int`, because no operation does arithmetic on it.
- ByName.Swap, OperationsByName.Swap, ByName.Less and OperationsByName.Less require their indices to be in range. Go panics on an out-of-range index (hostconfig.go:110-111, 116-117), and the sort package only passes valid ones.
- `GetHost`, `GetOperation` and `SupportsOp` take a pointer receiver (hostconfig.go:68, 79, 89). Calling `SupportsOp` on the nil host that a failed `GetHost` returns would panic. The model's receivers are values and cannot be nil.
- Registry.GetHost: the returned host is a shallow copy. Its `SupportedOperations` slice (hostconfig.go:28) shares its backing array with the stored host's, so in Go a write through the returned host's slice reaches the `Config`. The model's records are immutable values, so it does not capture this aliasing.

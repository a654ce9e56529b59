# CSP engine: a verified model of `csp.py`

The repository solves binary constraint satisfaction problems such as map
colouring. Its engine is the `CSP` class of `csp.py`. A problem is an ordered
list of variables, an initial domain (a list of values) per variable, a
neighbour list per variable, and a predicate `constraints(var1, val1, var2, val2)`.
`solve()` copies the initial domains into working domains and runs a recursive
backtracking search (`backtrack`), which:

- picks the unassigned variable with the fewest working values (MRV), breaking
  ties by the most unassigned neighbours (degree) and then by variable order;
- tries that variable's values in least-constraining order: a stable sort by the
  number of neighbour values each would rule out;
- keeps a value only if it agrees with the assigned neighbours
  (`is_consistent`);
- after each assignment, prunes the unassigned neighbours' working domains
  (`forward_checking`, with a record of what it removed);
- on failure, undoes the assignment and puts the removed values back
  (`restore_domains`).

A step counter grows by one per assignment and by one per undo.

The Dafny project has four modules:

- `StableSort` (`stable_sort.dfy`): Python's `sorted(xs, key=f)` as insertion
  sort. It proves the result is ordered by key, is a permutation of the input,
  keeps equal-key elements in input order, and is the only sequence with those
  three properties.
- `CspSpec` (`csp_spec.dfy`): the value-level vocabulary:
  - the problem, solutions, and one assignment extending another within the
    working domains;
  - the filters forward checking applies;
  - `ForwardCheck`, a recursive function that follows `forward_checking`
    neighbour by neighbour, and its closed form;
  - `Restored` for `restore_domains`;
  - the selection and ordering helpers;
  - `SearchInv`, the invariant every `backtrack` call starts from;
  - the lemmas behind completeness: why a value may be given up.
- `Csp` (`csp.dfy`): the classes. `Domains` is the working-domains dictionary,
  which is shared by reference and updated in place. `CSP` has the assignment
  and the step counter as mutable fields. Its methods loop as the source loops,
  and each is proved against the functions of `CspSpec`.
- `Australia` (`australia.dfy`): the map-colouring instance built in `main.py`.
  It is proved well-formed. A solution of it is exactly a proper colouring of a
  border list. Solving it is proved to return a proper colouring.

The central results:

- `Backtrack` and `Solve` are sound: a returned assignment is a solution.
- They are complete: `None` is returned only when no solution extends the state
  the call started from. For `Solve`, that means no solution exists at all.
- A failed call hands back the assignment unchanged and the working domains with
  the same values.
- The step count equals the assignments kept plus two per assignment undone.
  The ghost out-parameter `undone` counts the undone assignments.

## Model

| member | source | states |
|---|---|---|
| `Csp.CSP.constructor` | csp.py:4-19 | The object holds the given problem, an empty assignment and a zero step count. |
| `Csp.CSP.IsComplete` | csp.py:21-23 | The length comparison holds exactly when every variable is assigned, given unique variables and an assignment over them. |
| `CspSpec.CompleteByCount` | csp.py:21-23 | Over unique variables, an assignment has at most one entry per variable. It has as many entries as there are variables exactly when it assigns all of them. |
| `Csp.CSP.IsConsistent` | csp.py:25-32 | Returns true exactly when `v = value` satisfies the predicate against every listed neighbour that the assignment assigns. |
| `Csp.CSP.ForwardChecking` | csp.py:34-47 | The success flag, the new working domains and the removal record are those of `ForwardCheck`, started from the old domains and an empty record. |
| `Csp.CSP.PruneNeighbor` | csp.py:38-42 | Walking a copy of one neighbour's domain and removing each rejected value by its first occurrence leaves that domain filtered to the accepted values, in order. The rejected values are appended to its record, in order; the record gains an entry only when something was removed. |
| `CspSpec.ForwardCheckClosedForm` | csp.py:34-47 | Forward checking succeeds exactly when no unassigned neighbour is emptied. It prunes each scanned unassigned neighbour (all of them, or up to the first emptied one) to its accepted values, leaves every other domain alone, and records exactly the stripped values. |
| `CspSpec.RemoveFirst` | csp.py:40 | `list.remove(x)` takes exactly one occurrence of `x` out of the list. |
| `CspSpec.RemoveFirstIsFirst` | csp.py:40 | The occurrence removed is the first one: the values before it and after it stay, in order. |
| `CspSpec.AllowedMembers` | csp.py:38-40 | A value survives pruning exactly when it was in the domain and the predicate accepts it next to `v = value`. |
| `CspSpec.RejectedMembers` | csp.py:39-41 | A value is recorded as removed exactly when it was in the domain and the predicate rejects it. |
| `CspSpec.AllowedRejectedPartition` | csp.py:38-41 | The kept values and the removed values together are the old domain, with multiplicities. |
| `CspSpec.AllowedIdempotent` | csp.py:38-41 | Pruning a pruned domain again for the same assignment changes nothing and removes nothing. |
| `Csp.CSP.RestoreDomains` | csp.py:49-53 | Each recorded list is appended to its variable's working domain; all other domains are unchanged. |
| `CspSpec.RestoreUndoesForwardCheck` | csp.py:34-53 | Restoring the record that forward checking filled gives every working domain back exactly the values it had before, with multiplicities (the order may change). |
| `Csp.CSP.SelectUnassignedVariable` | csp.py:55-80 | `None` exactly when every variable is assigned. Otherwise the result is an unassigned variable whose working domain is no larger than any unassigned variable's. Among those tied on size it has the greatest degree, and, over unique variables, a strictly greater degree than every tied variable listed before it. |
| `Csp.CSP.MaxDegreeCandidate` | csp.py:71-80 | Over a non-empty candidate list, returns a candidate of maximal degree such that every earlier candidate has a strictly smaller degree; `None` only for an empty list. |
| `CspSpec.Unassigned` | csp.py:57 | The list comprehension holds exactly the listed variables that are not assigned. |
| `CspSpec.MinDomainSize` | csp.py:63 | The minimum is the domain size of some candidate and no larger than any candidate's. |
| `CspSpec.OfDomainSize` | csp.py:64 | The comprehension holds exactly the candidates whose domain has the given size. |
| `CspSpec.UnassignedKeepsOrder` | csp.py:57 | Filtering keeps the relative order of two unassigned variables. |
| `CspSpec.OfDomainSizeKeepsOrder` | csp.py:64 | Filtering by domain size keeps the relative order of two candidates of that size. |
| `Csp.CSP.CountConflicts` | csp.py:87-94 | The nested loops count, over the unassigned neighbours, the working values the predicate rejects next to `v = value`. This is the key `ConflictKey`. |
| `Csp.CSP.OrderDomainValues` | csp.py:82-98 | No values for a variable without a working domain. Otherwise the result is a stable sort of that domain by the conflict count: ordered by key, a permutation, with equal keys in domain order. |
| `StableSort.Sort` | csp.py:96 | The sort returns a permutation of its input, ordered by key. |
| `StableSort.SortIsStableSort` | csp.py:96 | The sort also keeps elements with equal keys in their input order. |
| `StableSort.StableSortIsUnique` | csp.py:96 | Any sequence that is a stable sort of the input by the key equals `Sort`, so the model returns exactly what `sorted` returns. |
| `Csp.CSP.Backtrack` | csp.py:100-125 | On success, the assignment is returned, is a solution, and extends the starting assignment within the starting working domains. On failure, the assignment is unchanged, the working domains hold the same values, and no solution extends the starting state. The steps grow by the assignments kept plus two per assignment undone. |
| `Csp.CSP.TryValues` | csp.py:109-125 | The loop over the ordered values returns the first success. When every value fails, the state comes back with the same contents, and no solution extending the starting state gives the variable any of the values. |
| `Csp.CSP.TryValue` | csp.py:110-124 | One turn of the loop for one value. An inconsistent value is skipped. Otherwise the turn assigns, forward checks and searches deeper; on failure it undoes the assignment (one more step) and restores the domains. A failed turn proves that no solution extending the starting state uses this value. |
| `CspSpec.CompleteIsSolution` | csp.py:102-103 | A search state that assigns every variable is a solution. |
| `CspSpec.AssignKeepsSearchInv` | csp.py:110-117 | A consistent assignment from the working domain, followed by successful forward checking, keeps the search invariant. |
| `CspSpec.InconsistentValueExcluded` | csp.py:110 | A value that clashes with an assigned neighbour is in no solution extending the assignment. |
| `CspSpec.EmptiedNeighbourExcluded` | csp.py:43-46 | A value whose forward checking empties an unassigned neighbour is in no solution extending the state. |
| `CspSpec.ExtendsPrunedState` | csp.py:112-119 | A solution extending the state that gives `v` the value `value` also extends the state after that assignment and forward checking. So a failed deeper search rules the value out. |
| `CspSpec.PrunedStateExtends` | csp.py:117-119 | A solution found below the pruned state extends the state before the assignment, since pruning only drops values. |
| `CspSpec.AllValuesExcluded` | csp.py:109-125 | Once every value of the chosen variable's working domain is ruled out, no solution extends the state. |
| `CspSpec.SearchInvSameContents` | csp.py:124 | The search invariant depends only on which values the working domains hold, not on their order, so restoration keeps it. |
| `Csp.CSP.Solve` | csp.py:127-138 | The search starts from an empty assignment, a zero count and a copy of the initial domains. A returned assignment is a solution. `None` means no solution exists. The step count is the number of assignments kept plus two per undo. |
| `Australia.AustraliaWellFormed` | main.py:7-30 | The instance has unique variables, a domain for each, and neighbours that are variables. |
| `Australia.SolutionIsProperColouring` | main.py:21-33 | A map is a solution of the instance exactly when it colours every region and gives every shared border two different colours. |
| `Australia.AustraliaColourable` | main.py:7-33 | The instance has a solution. |
| `Australia.SolveAustralia` | main.py:7-36 | Solving the instance returns a proper colouring. The step count is seven plus two per undo. |

## Left out

- The step trace (`step_log`, csp.py:19 and its `append` calls): it is
  diagnostic text that never affects the search, so it is not modelled.
- The printing in main.py (lines 41-53).
- `select_unassigned_variable` returning `None` inside `backtrack`
  (csp.py:105-107): `backtrack` only gets there when the assignment is
  incomplete, so the model proves a variable is found instead of modelling that
  exit.
- Malformed input: `WellFormed` is a precondition of `Backtrack` and `Solve`.
  It requires unique variables, a domain for every variable, and neighbours that
  are variables. The source raises `KeyError` on a missing domain and miscounts
  `is_complete` on repeated variables; callers are expected to avoid both.
- A variable listed as its own neighbour: the source never checks such a pair,
  so `Satisfies` leaves self-pairs out as well.
- The constraint predicate is a total, side-effect-free function of its four
  arguments. Exceptions or side effects inside it are not modelled.
- `Csp.CSP.ForwardChecking` takes no `removed` argument. The source's only
  caller passes a fresh `{}` (csp.py:115), so the model returns the record as an
  out-parameter.
- Aliasing of the result: `backtrack` returns the live `self.assignments`
  dictionary. The model returns its value and states that it equals the field.
- `if result:` (csp.py:118): below an assignment a returned assignment is never
  empty, so its truthiness always agrees with "not `None`".
- Order of `removed.items()` in `restore_domains`: each key is restored exactly
  once, so the model walks the keys in an arbitrary order.
- `Csp.CSP.OrderDomainValues` sorts by the specification key `ConflictKey`.
  `Csp.CSP.CountConflicts` is the loop that computes that key, proved equal to
  it.
- The step count of the smallest problem: one variable with one value and no
  neighbours is assigned and counted as one step (csp.py:112-113), and nothing
  is undone. `Csp.CSP.Solve` gives the count as `|assignments| + 2 * undone`.
- `Csp.CSP.Backtrack` and `Csp.CSP.Solve` state the number of undone
  assignments through a ghost counter. They do not bound how many undos occur.

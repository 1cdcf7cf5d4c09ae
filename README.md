# Campus route navigator: a verified model of the route core

This project models the core of the campus route navigator, a web page that
plans a walking route across a university campus. It covers three things:

- **The location registry** (`locations.dfy`, module `CampusLocations`). It holds
  thirteen named points with integer map coordinates and the name-to-location
  map built from them by a left fold. It also holds the list of names offered
  in the dropdowns.
- **The route optimiser** (`route_calculator.dfy`, module `RouteCalculator`).
  - It computes the straight-line distance between two locations.
  - It estimates walking time, assuming 100 map units are 50 metres and a
    walking speed of 1.4 m/s.
  - It generates all permutations of a list with `getPermutations`'s
    nested loops.
  - It searches exhaustively for the cheapest way to visit every checkpoint
    between a fixed start and end. The first strictly shorter candidate wins.
- **The planning page's state machine** (`index_page.dfy`, module `IndexPage`).
  - A class `RoutePlanner` holds the selection (start, end, checkpoints) and
    the last result (route, distance, time).
  - Its methods model the page's handlers: map clicks, checkpoint
    checkboxes, "find route", "clear", the two dropdowns and the export
    guard.

`optional.dfy` holds the `Option` type, which models the page's `null`.

Modelling choices:

- **Square root.** The square root is a parameter `sqrt: real -> real` of the
  operations that measure distance. Properties that depend on what a square
  root is (non-negativity, zero exactly at the same point) require
  `IsSqrt(sqrt)`. That predicate says `sqrt` returns the non-negative root,
  which is zero exactly at zero. Shape, minimality and tie-breaking hold for
  any `sqrt`.
- **Infinity sentinel.** The optimiser starts its best distance at
  `Infinity`. Here that becomes `Option<real>`, where `None` means no
  candidate has been scored yet.
- **Specification functions.** The loops are proved equal to functions that
  mirror them:
  - `GetPermutations` equals `Permutations`;
  - `CalculateOptimalRoute` equals `OptimalRoute`, which is a left fold
    `BestAmong` over the generated orderings.

  The properties are proved about those functions.
- **Unset names.** The page tests `!start` and `!end`. A name is therefore
  "unset" when it is absent or the empty string (`Unset`).
- **Exceptions in "find route".** When the registry cannot resolve a name,
  `calculateDistance` throws, and the page catches the exception. This
  is modelled as the state staying unchanged.

## Model

| member | source | states |
|---|---|---|
| CampusLocations.Names | src/data/locations.ts:31 | the name list has one entry per table row, each the row's name, in table order |
| CampusLocations.BuildLocations | src/data/locations.ts:22-28 | the folded map has exactly the table's names as keys and every value carries its own key as its name |
| CampusLocations.BuildLocationsLookup | src/data/locations.ts:22-28 | with distinct names, the map holds under each name exactly the row's `{name, x, y}` |
| CampusLocations.BuildLocationsSize | src/data/locations.ts:22-28 | with distinct names the map has one key per row |
| CampusLocations.BuildLocationsInFrame | src/data/locations.ts:22-28 | if every row lies inside the 800 x 600 frame, so does every value of the map |
| CampusLocations.LocationDataDistinct | src/data/locations.ts:5-19 | no name occurs twice in the coordinate table |
| CampusLocations.RegistryMatchesTable | src/data/locations.ts:5-28 | every table row is a registry key whose value has that name and the row's coordinates |
| CampusLocations.LocationNamesAreKeys | src/data/locations.ts:31 | the name list holds exactly the registry keys, without repeats, 13 of them |
| CampusLocations.RegistryInFrame | src/components/CampusMap.tsx:55-56 | every registered point lies inside the 800 x 600 reference frame the map scales from |
| RouteCalculator.DistanceSymmetric | src/utils/routeCalculator.ts:5-9 | `Distance(a, b) == Distance(b, a)`, where `Distance` models `calculateDistance`: `sqrt(dx*dx + dy*dy)` over the integer coordinate differences |
| RouteCalculator.DistanceNonNegative | src/utils/routeCalculator.ts:5-9 | with a genuine square root `Distance` (the model of `calculateDistance`) is non-negative and zero exactly when the two points coincide |
| RouteCalculator.CalculateTime | src/utils/routeCalculator.ts:12-20 | minutes are distance / 168 (half a metre per unit at 1.4 m/s); non-negative for a non-negative distance; zero exactly for distance zero |
| RouteCalculator.TimeMonotonic | src/utils/routeCalculator.ts:12-20 | a longer distance never gives a shorter time |
| RouteCalculator.Remove | src/utils/routeCalculator.ts:68 | removing index i keeps the elements before and after it in order and removes exactly one copy of `xs[i]` |
| RouteCalculator.Permutations | src/utils/routeCalculator.ts:61-77 | a list of n elements has n! orderings generated |
| RouteCalculator.GetPermutations | src/utils/routeCalculator.ts:61-77 | the nested loops produce exactly the orderings of `Permutations`, in the same order |
| RouteCalculator.PermutationsAreReorderings | src/utils/routeCalculator.ts:66-74 | every generated ordering is a rearrangement (same multiset) of the input |
| RouteCalculator.PermutationsAreComplete | src/utils/routeCalculator.ts:66-74 | every rearrangement of the input is generated |
| RouteCalculator.FirstPermutationIsInput | src/utils/routeCalculator.ts:66-74 | the first generated ordering is the input in its own order |
| RouteCalculator.Candidate | src/utils/routeCalculator.ts:43 | the candidate path starts at start, ends at end, has the ordering as its middle and contains exactly those names |
| RouteCalculator.PathDistanceNonNegative | src/utils/routeCalculator.ts:44-49 | with a genuine square root `PathDistance` is never negative; `PathDistance` models the `totalDistance` loop: the sum of `Distance` over consecutive pairs of the path |
| RouteCalculator.FirstMinimumIndex | src/utils/routeCalculator.ts:51-54 | the scan that moves only on a strictly smaller value ends at the first index of least value |
| RouteCalculator.FirstMinimumIsUnique | src/utils/routeCalculator.ts:51-54 | at most one index is the first index of least value |
| RouteCalculator.BestAmong | src/utils/routeCalculator.ts:42-55 | the scan over the orderings that replaces the best so far only by a strictly shorter candidate (the `<` against `bestDistance`) has a best exactly when at least one ordering was scanned |
| RouteCalculator.BestAmongIsFirstMinimum | src/utils/routeCalculator.ts:42-55 | `BestAmong` keeps the candidate at the first index of least length together with that length |
| RouteCalculator.CalculateOptimalRoute | src/utils/routeCalculator.ts:23-58 | the method with its two nested loops returns exactly the route and distance of `OptimalRoute`, the model of `calculateOptimalRoute`: `[start, end]` with the direct `Distance` when there are no checkpoints, otherwise the `BestAmong` answer over `Permutations(checkpoints)` |
| RouteCalculator.OptimalRouteDirect | src/utils/routeCalculator.ts:30-33 | without checkpoints the route is `[start, end]` and its distance the direct distance |
| RouteCalculator.OptimalRouteSingle | src/utils/routeCalculator.ts:39-57 | with one checkpoint c the route is `[start, c, end]` and its distance is the sum of the two legs |
| RouteCalculator.OptimalRouteChoice | src/utils/routeCalculator.ts:39-57 | with checkpoints the route is the candidate of a generated rearrangement, scored by its own length, at the first index of least length |
| RouteCalculator.OptimalRouteShape | src/utils/routeCalculator.ts:39-57 | the route starts at start, ends at end, visits a rearrangement of the checkpoints in between, and its distance is its own summed length |
| RouteCalculator.OptimalRouteIsMinimal | src/utils/routeCalculator.ts:42-55 | no rearrangement of the checkpoints gives a shorter path than the returned distance |
| RouteCalculator.OptimalRouteIsShortest | src/utils/routeCalculator.ts:23-58 | the returned route satisfies `IsShortestRoute`: right endpoints, a rearrangement of the checkpoints, its own length, and a global minimum |
| RouteCalculator.OptimalRouteFirstBest | src/utils/routeCalculator.ts:51-54 | ties go to the earliest generated ordering reaching the least length |
| RouteCalculator.OptimalRouteKeepsInputOrder | src/utils/routeCalculator.ts:51-54 | when the given order is as short as every rearrangement (for instance when all tie), the given order is returned |
| RouteCalculator.OptimalRouteNonNegative | src/utils/routeCalculator.ts:23-58 | with a genuine square root the returned distance is never negative |
| IndexPage.Without | src/pages/Index.tsx:80-82 | the filtered list holds exactly the names of the input not excluded |
| IndexPage.WithoutAppend | src/pages/Index.tsx:80-82 | filtering distributes over concatenation, so the order of the kept names is the input's |
| IndexPage.WithoutNothingExcluded | src/pages/Index.tsx:80-82 | filtering out names that do not occur returns the list unchanged |
| IndexPage.WithoutNoDuplicates | src/pages/Index.tsx:67 | filtering keeps a duplicate-free list duplicate-free |
| IndexPage.AppendNoDuplicates | src/pages/Index.tsx:65 | appending an absent name keeps a duplicate-free list duplicate-free |
| IndexPage.Toggled | src/pages/Index.tsx:53-59 | the toggled location is present afterwards exactly when it was absent before, every other name keeps its membership, and an absent one is appended at the end |
| IndexPage.ToggleTwiceRestores | src/pages/Index.tsx:53-59 | clicking an absent location twice restores the original list |
| IndexPage.ToggledNoDuplicates | src/pages/Index.tsx:53-59 | toggling keeps a duplicate-free list duplicate-free |
| IndexPage.RoutePlanner.constructor | src/pages/Index.tsx:17-24 | the page starts with nothing selected and no result, and in a valid state |
| IndexPage.RoutePlanner.HandleLocationSelect | src/pages/Index.tsx:27-60 | with no start the click sets the start only; with a start but no end, clicking the start changes nothing and another location becomes the end, so the end never equals the start; with both set, clicking either changes nothing and another location is toggled; the result is untouched and validity is kept |
| IndexPage.RoutePlanner.HandleCheckpointToggle | src/pages/Index.tsx:63-69 | afterwards the location is present exactly when checked, appended only when it was absent and filtered only when present; nothing else changes and the list stays duplicate-free |
| IndexPage.RoutePlanner.FindRoute | src/pages/Index.tsx:72-115 | without both endpoints, or when a name cannot be resolved, nothing changes; otherwise route, distance and time are the optimiser's answer for the checkpoints without start and end (order kept) and its time estimate, and that route is a shortest route; the selection is never changed |
| IndexPage.RoutePlanner.ClearRoute | src/pages/Index.tsx:118-126 | every field is back to its initial value and the state is valid |
| IndexPage.RoutePlanner.SetStart | src/pages/Index.tsx:152 | the start dropdown sets the start only and keeps the state valid |
| IndexPage.RoutePlanner.SetEnd | src/pages/Index.tsx:153 | the end dropdown sets the end only and keeps the state valid |
| IndexPage.RoutePlanner.ExportRoute | src/pages/Index.tsx:129-138 | export proceeds exactly when a route of at least two stops exists, which in a valid state is exactly when a route has been found; the state is not changed |

## Left out

- The square root itself: `Math.sqrt` is a parameter of the distance operations, not defined. No property about floating-point rounding of the root is stated.
- IEEE-754 arithmetic: distances and times are exact reals. Rounding, `NaN` and `Infinity` are not modelled. The `Infinity` start value of the best distance is modelled as `None`.
- Number formatting with `toFixed` in the route summary is not part of this model.
- Coordinates are integers, as in the registry. Fractional coordinates passed in from elsewhere are not modelled.
- RouteCalculator.CalculateOptimalRoute: requires every looked-up name to be a registry key. `calculateDistance` throws a `TypeError` when it reads a coordinate of an undefined entry. The page's catch of that failure is modelled in `IndexPage.RoutePlanner.FindRoute` as "state unchanged".
- IndexPage.RoutePlanner.FindRoute: only the failure caused by an unresolvable name is modelled, and the model leaves the state unchanged for every name that is not a registry key. A name that JavaScript resolves through the object prototype (such as `"toString"`) does not throw: its distances are `NaN`. With a non-empty checkpoint list every `totalDistance < bestDistance` comparison with `NaN` is false, so `calculateOptimalRoute` returns `{path: [], distance: Infinity}` and the page stores the route `[]`. That input is the only one on which the `route.length < 2` test of `exportRoute` matters; the model, whose stored routes always have at least two stops, does not capture it.
- Toast notifications, `console.error`, the delayed smooth scroll on mobile and the `isMobile`/`mapRef` hooks are user-interface side effects with no effect on the modelled state.
- Rendering (`CampusMap`, `RouteControls`, `RouteSummary`, `Header`) is not part of this model, apart from the 800 x 600 frame used by `RegistryInFrame`.
- `src/types/index.ts` holds only type declarations. `Location` becomes the `Location` datatype. `Route.time` is never built by the core and is not modelled.
- The running time of the search is factorial in the number of checkpoints. That is a cost, not a behaviour, and is not modelled.
- React's batching of state updates is not modelled: each handler's updates are applied together, at the end of the handler.

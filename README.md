# Console features and the server allocation list

A Dafny model of two pieces of decision logic from a game-server hosting
panel (Laravel/Filament).

**Console features** (`console_feature.dfy`, module `ConsoleFeature`). A
feature such as the EULA prompt declares a list of listener strings. A line
printed on the server console triggers the feature when the lower-cased line
contains at least one listener (`Feature::matchesListeners`). The listeners
are a parameter of the model. Lower-casing is modelled for ASCII letters only.
The substring test follows Laravel's `Str::contains`, which skips an empty
needle. This library code is not part of this model, and the model takes that
rule as an explicit assumption: an empty listener never matches. PHP's
`str_contains` is modelled as a left-to-right scan (`StrContains`) and proved
equal to the plain definition of "is a substring".

**Allocation list** (`list_allocations.dfy`, module `ListAllocations`). This
is the table of allocations (IP:port rows) a server owner sees:

- A row is primary when its id equals the server's `allocation_id`.
- "Make primary" rewrites that single pointer.
- "Delete" detaches a row by nulling its `notes` and `server_id`. It is hidden
  for the primary row.
- "Add Allocation" is labelled, coloured and disabled by the test
  `count >= allocation_limit`.

The guard predicates and the detach update are functions on values: a
`Table` is a map from allocation id to row. The class `AllocationPage` holds
the tenant server's `allocation_id` together with the table. Its two methods,
`MakePrimary` and `Delete`, update that state in place, as the page's actions
do.

## Model

| member | source | states |
|---|---|---|
| `ConsoleFeature.LowerChar` | app/Features/Feature.php:19 | the lower-cased character is never a capital; non-capitals are unchanged; capitals map to their small letter |
| `ConsoleFeature.StrContainsIsInfix` | app/Features/Feature.php:19 | the `str_contains` scan succeeds exactly when the needle occurs at some position of the haystack |
| `ConsoleFeature.MatchesListenersIff` | app/Features/Feature.php:17-20 | `matchesListeners(line)` holds iff some non-empty listener is a substring of the lower-cased line (both directions) |
| `ConsoleFeature.NoListenersNeverMatch` | app/Features/Feature.php:19 | with an empty listener list no line triggers the feature |
| `ConsoleFeature.EmptyListenerIgnored` | app/Features/Feature.php:19 | adding an empty listener never changes the result |
| `ConsoleFeature.LowerIdempotent` | app/Features/Feature.php:19 | lower-casing an already lower-cased line changes nothing |
| `ConsoleFeature.MatchesDependsOnlyOnLowerLine` | app/Features/Feature.php:19 | two lines with the same lower-case form give the same answer, and a line gives the same answer as its lower-case form |
| `ConsoleFeature.MatchesListenersAppend` | app/Features/Feature.php:19 | matching against two joined listener lists is matching against either list |
| `ConsoleFeature.MatchesMonotone` | app/Features/Feature.php:19 | adding listeners before or after the existing ones never turns a match into a miss |
| `ConsoleFeature.MatchesIgnoresOrder` | app/Features/Feature.php:19 | two listener lists with the same members give the same result, whatever their order and repetitions |
| `ConsoleFeature.UppercaseListenerNeverContained` | app/Features/Feature.php:19 | a listener holding a capital letter is never contained in any lower-cased line |
| `ConsoleFeature.UppercaseListenerIsDead` | app/Features/Feature.php:19 | so adding such a listener never changes which lines trigger the feature, and on its own it matches nothing |
| `ConsoleFeature.ContainedListenerMatches` | app/Features/Feature.php:17-20 | a line whose lower-case form contains a non-empty listener at some position triggers the feature |
| `ConsoleFeature.EulaPromptMatches` | app/Features/Feature.php:9-20 | the console line "You need to agree to the EULA in order to run the server." triggers a feature whose listener is the lower-case sentence from the doc-comment |
| `ConsoleFeature.EulaOtherLinesDoNotMatch` | app/Features/Feature.php:9-20 | an unrelated console line does not trigger the EULA feature, and a listener written with capitals does not match the prompt |
| `ListAllocations.AtMostOnePrimary` | app/Filament/App/Resources/AllocationResource/Pages/ListAllocations.php:45-50 | at most one listed row is primary: exactly the row `allocation_id` names if the server owns it, none otherwise |
| `ListAllocations.PrimaryColumnShowsPrimary` | app/Filament/App/Resources/AllocationResource/Pages/ListAllocations.php:35-50 | the filled star and the warning colour are shown exactly for the row whose id equals `allocation_id` |
| `ListAllocations.DetachChangesOnlyTarget` | app/Filament/App/Resources/AllocationResource/Pages/ListAllocations.php:65-68 | detaching keeps the set of rows, every other row, and the target's ip, alias and port; it sets the target's notes and server id to null |
| `ListAllocations.DetachIdempotent` | app/Filament/App/Resources/AllocationResource/Pages/ListAllocations.php:65-68 | detaching twice gives the same table as detaching once |
| `ListAllocations.DetachOwnedIds` | app/Filament/App/Resources/AllocationResource/Pages/ListAllocations.php:65-68 | after detaching, the server owns exactly the rows it owned before minus the detached one |
| `ListAllocations.DetachCount` | app/Filament/App/Resources/AllocationResource/Pages/ListAllocations.php:65-68 | detaching one of the server's rows lowers its allocation count by exactly one; detaching any other row leaves the count unchanged |
| `ListAllocations.VisibleDeleteKeepsPrimary` | app/Filament/App/Resources/AllocationResource/Pages/ListAllocations.php:57-68 | a delete the page offers (the row is not primary) leaves the set of primary rows unchanged |
| `ListAllocations.AddActionAgrees` | app/Filament/App/Resources/AllocationResource/Pages/ListAllocations.php:82-100 | the action is disabled iff count >= limit, iff the label is "Allocation Limit Reached", iff the colour is "danger"; otherwise the label is "Add Allocation" and the colour "primary" |
| `ListAllocations.DeleteAtLimitReenablesAdd` | app/Filament/App/Resources/AllocationResource/Pages/ListAllocations.php:65-93 | a server exactly at its limit that deletes one of its own rows gets "Add Allocation" enabled again |
| `ListAllocations.AllocationPage.MakePrimary` | app/Filament/App/Resources/AllocationResource/Pages/ListAllocations.php:44 | sets `allocation_id` to the clicked id and leaves the table unchanged; a listed clicked row becomes the only primary row, and the primary pointer then names an owned row |
| `ListAllocations.AllocationPage.Delete` | app/Filament/App/Resources/AllocationResource/Pages/ListAllocations.php:63-68 | the new table is the detached old one and `allocation_id` is unchanged; deleting a listed row shrinks the list by one; deleting a non-primary row keeps the primary rows and the invariant that the primary row is owned |
| `ListAllocations.AllocationPage.AddAllocationLabel` | app/Filament/App/Resources/AllocationResource/Pages/ListAllocations.php:82-87 | the label is "Allocation Limit Reached" iff the number of listed rows is at least the limit, and "Add Allocation" otherwise |
| `ListAllocations.AllocationPage.AddAllocationDisabled` | app/Filament/App/Resources/AllocationResource/Pages/ListAllocations.php:89-94 | the action is disabled iff the label reads "Allocation Limit Reached", iff the colour is "danger" |
| `ListAllocations.AllocationPage.AddAllocationColor` | app/Filament/App/Resources/AllocationResource/Pages/ListAllocations.php:95-100 | the colour is "danger" iff the number of listed rows is at least the limit, and "primary" otherwise |

## Left out

- Lower-casing is ASCII only. Laravel's `lower` uses multibyte lower-casing, so lines with non-ASCII capitals are not modelled.
- The empty-needle rule of `Str::contains` is an assumption taken from that library, which is not part of this model.
- Listener values are modelled as strings. PHP would also accept other values in the array returned by `listeners()`.
- `featureName()` and `action()` are left out: they are abstract, and `app/Features/CustomModal.php` only binds a view.
- The "Add Allocation" action body (ListAllocations.php:101-111) is left out. It calls `FindAssignableAllocationService::handle`, which is not part of this model, so only its label, colour and disabled guards are modelled.
- The activity log entries (ListAllocations.php:70-73, 107-110) are left out because they are logging side effects.
- The `panel.client_features.allocations.enabled` config flag that hides the add action (line 88) is left out because it is ambient configuration.
- Tenant resolution (`Filament::getTenant()`) is left out. The tenant server is the `AllocationPage` object itself.
- ListAllocations.AllocationPage.AddAllocationLabel: `allocation_limit` is modelled as a natural number. A null limit is not modelled; PHP's loose `>=` would treat it as always reached. The same holds for `AddAllocationDisabled` and `AddAllocationColor`.
- The display columns are left out: the Address column showing the alias (lines 27-29), the hidden alias column, and inline editing of notes through the text-input column (lines 33-34). They are rendering and framework behaviour.
- The "Make primary" and "Delete" actions are reachable only from listed rows in the UI. The methods model the action bodies as written, which do not check ownership themselves.
- Server creation and provisioning are left out: validation, allocation finding, persistence, the daemon call and rollback. Their services are not part of this model.
- Concurrency between requests and row locking are left out.

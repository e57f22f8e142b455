# Breadcrumb log and navigation policy decisions

This project models two small components of the iOS browser's native layer and proves properties about them in Dafny.

**The breadcrumb manager** (`BreadcrumbManager`) keeps an in-memory log of short event messages. Crash reports include this log.
- Events are grouped into buckets. Each bucket holds one minute-resolution time and the events logged in that minute.
- Buckets run oldest first, so the newest bucket is at the tail.
- `AddEvent` appends a newline-free message. The stored line is a timestamp, a space, then the message.
- `SetPreviousEvents` splices a restored batch in front of everything.
- `GetEventCount` and `GetEvents(limit)` both prune stale buckets before they answer.
- Pruning removes a bucket only from the oldest end. The bucket must be older than the retention window, and the newer buckets must still hold at least a minimum number of events. So stale events stay when nothing newer exists.
- Observers register with `AddObserver` and leave with `RemoveObserver`. The manager may only be destroyed once the registry is empty.

**The web-state policy decider** (`WebStatePolicyDecider`) decides whether a navigation may go on.
- `PolicyDecision` is a two-valued decision. `Allow()` and `Cancel()` build it, and `ShouldAllowNavigation()` and `ShouldCancelNavigation()` query it. Its field defaults to allow.
- A decider that overrides nothing allows every request and every response.
- The decider refers to one web state. The constructor sets that reference and `ResetWebState` clears it.

Layout:
- `breadcrumb_events.dfy` (module `BreadcrumbEvents`) gives the bucket list as a value. It defines the effect of each operation as a function (`AddedTo`, `Restored`, `Pruned`, `Newest`) and proves the lemmas about those functions.
- `breadcrumb_manager.dfy` (module `Breadcrumbs`) holds the `BreadcrumbManager` class. It has a `seq<Bucket>` field and a `seq` of observers, and its methods take the current minute `now`. Each method's postcondition ties the new state to those functions.
- `web_state_policy_decider.dfy` (module `WebStatePolicy`) holds `PolicyDecision` and the `WebStatePolicyDecider` class.

The source does not fix the clock, the retention window, the minimum kept, or the timestamp text, so they are parameters:
- the current minute is an argument of every method that needs it;
- the window, the minimum (at least one), and a timestamp renderer `stamp: int -> string` are fixed when the manager is created. The renderer takes elapsed minutes since creation and must yield text without a space or a newline.

Restored events go into one bucket stamped with the manager's creation minute. So they count as logged when the manager was created.

## Model

| member | source | states |
|---|---|---|
| `BreadcrumbEvents.CountIsLength` | chrome/browser/crash_report/breadcrumbs/breadcrumb_manager.h:24-27 | summing bucket sizes gives the number of events retained |
| `BreadcrumbEvents.Entry` | chrome/browser/crash_report/breadcrumbs/breadcrumb_manager.h:31-32 | a stored line is the timestamp prepended to the message; the message is its suffix |
| `BreadcrumbEvents.MessageOfEntry` | chrome/browser/crash_report/breadcrumbs/breadcrumb_manager.h:31-32 | splitting a stored line at its first space gives back the original message |
| `BreadcrumbEvents.EntryNewlineFree` | chrome/browser/crash_report/breadcrumbs/breadcrumb_manager.h:40-43 | a line built from a newline-free message holds no newline |
| `BreadcrumbEvents.AddedTo` | chrome/browser/crash_report/breadcrumbs/breadcrumb_manager.h:64-66 | after adding, the newest bucket is of the current minute and ends with the new line |
| `BreadcrumbEvents.AddedToShape` | chrome/browser/crash_report/breadcrumbs/breadcrumb_manager.h:64-66 | adding leaves every older bucket unchanged, reuses the newest bucket exactly when it is of the current minute, and otherwise opens one new bucket holding only the new line |
| `BreadcrumbEvents.StampedEvents` | chrome/browser/crash_report/breadcrumbs/breadcrumb_manager.h:64-66 | pairing each event with its bucket's minute keeps the events and their order |
| `BreadcrumbEvents.AddedToStamped` | chrome/browser/crash_report/breadcrumbs/breadcrumb_manager.h:64-66 | adding keeps every earlier event with the minute it was logged in, and pairs the new line with the current minute |
| `BreadcrumbEvents.AddedToEvents` | chrome/browser/crash_report/breadcrumbs/breadcrumb_manager.h:40-43 | adding keeps all earlier events in order and puts the new one last |
| `BreadcrumbEvents.AddedLine` | chrome/browser/crash_report/breadcrumbs/breadcrumb_manager.h:40-43 | adding a stamped message puts its line last, keeps the message recoverable, keeps newline-freedom, and keeps time order when the clock has not gone back |
| `BreadcrumbEvents.AddedToOrdered` | chrome/browser/crash_report/breadcrumbs/breadcrumb_manager.h:64-66 | adding at a minute no earlier than the newest bucket keeps bucket times non-decreasing |
| `BreadcrumbEvents.Restored` | chrome/browser/crash_report/breadcrumbs/breadcrumb_manager.h:37-38 | the restored batch becomes one new oldest bucket at the given minute, and the existing buckets follow unchanged; so the batch comes, in order, before all existing events, which keep their order and their minutes, and each restored event is paired with the given minute; time order is kept when the batch's minute is not after the oldest bucket; the log is newline-free iff the batch and the old log are |
| `BreadcrumbEvents.AddedToRestoredBucket` | chrome/browser/crash_report/breadcrumbs/breadcrumb_manager.h:37-43 | an event logged in the creation minute, after a batch was restored into an empty log, joins the restored bucket |
| `BreadcrumbEvents.Pruned` | chrome/browser/crash_report/breadcrumbs/breadcrumb_manager.h:56-59 | pruning leaves a suffix of the bucket list |
| `BreadcrumbEvents.PrunedDropsOnlyStale` | chrome/browser/crash_report/breadcrumbs/breadcrumb_manager.h:17-21 | every dropped bucket is stale, and what is kept is the whole log or at least the minimum number of events |
| `BreadcrumbEvents.PrunedIsStable` | chrome/browser/crash_report/breadcrumbs/breadcrumb_manager.h:56-59 | pruning stops at the first bucket that is fresh or whose newer events are fewer than the minimum |
| `BreadcrumbEvents.PrunedKeepsFloor` | chrome/browser/crash_report/breadcrumbs/breadcrumb_manager.h:17-21 | pruning keeps at least min(events, minimum) events, so a non-empty log is never emptied |
| `BreadcrumbEvents.PrunedOnlyRemoves` | chrome/browser/crash_report/breadcrumbs/breadcrumb_manager.h:56-59 | the kept events are a suffix of the events before, in the same order, never more of them |
| `BreadcrumbEvents.PrunedOrdered` | chrome/browser/crash_report/breadcrumbs/breadcrumb_manager.h:64-66 | pruning keeps bucket times non-decreasing |
| `BreadcrumbEvents.PrunedLater` | chrome/browser/crash_report/breadcrumbs/breadcrumb_manager.h:24-27 | pruning at an earlier minute then a later one equals pruning at the later one, so repeated counts only shrink as time passes |
| `BreadcrumbEvents.PrunedIdempotent` | chrome/browser/crash_report/breadcrumbs/breadcrumb_manager.h:56-59 | pruning twice at the same minute drops nothing more |
| `BreadcrumbEvents.Newest` | chrome/browser/crash_report/breadcrumbs/breadcrumb_manager.h:29-35 | limit zero gives every event; otherwise at most `limit`, exactly min(limit, count), the newest ones in order |
| `Breadcrumbs.WithoutObserver` | chrome/browser/crash_report/breadcrumbs/breadcrumb_manager.h:45-47 | removing an observer takes out one registration, keeps only registered observers, and leaves a registry without it unchanged |
| `Breadcrumbs.WithoutObserverRemovesFirst` | chrome/browser/crash_report/breadcrumbs/breadcrumb_manager.h:45-47 | the registration taken out is the observer's first one; the observers before and after it stay in order |
| `Breadcrumbs.RemoveAfterAdd` | chrome/browser/crash_report/breadcrumbs/breadcrumb_manager.h:45-47 | adding then removing an unregistered observer restores the registry |
| `Breadcrumbs.CountEvents` | chrome/browser/crash_report/breadcrumbs/breadcrumb_manager.h:24-27 | the counting loop returns the number of retained events |
| `Breadcrumbs.CollectNewest` | chrome/browser/crash_report/breadcrumbs/breadcrumb_manager.h:29-35 | the newest-first walk returns exactly `Newest` of the events for the limit |
| `Breadcrumbs.BreadcrumbManager.ReadyForDestruction` | chrome/browser/crash_report/breadcrumbs/breadcrumb_manager.h:68-69 | the observer list must be empty, with no observer registered, when the manager is destroyed |
| `Breadcrumbs.BreadcrumbManager.constructor` | chrome/browser/crash_report/breadcrumbs/breadcrumb_manager.h:61-69 | a new manager records its creation minute and starts with no events and no observers |
| `Breadcrumbs.BreadcrumbManager.AddEvent` | chrome/browser/crash_report/breadcrumbs/breadcrumb_manager.h:40-43 | requires a newline-free message; the line goes last; the message is recoverable from it; newline-freedom and (with a clock not running back) time order are kept |
| `Breadcrumbs.BreadcrumbManager.SetPreviousEvents` | chrome/browser/crash_report/breadcrumbs/breadcrumb_manager.h:37-38 | the restored batch is stamped with the creation minute; the events become the batch followed by the old events; time order is kept when no bucket predates creation; observers are unchanged |
| `Breadcrumbs.BreadcrumbManager.DropOldEvents` | chrome/browser/crash_report/breadcrumbs/breadcrumb_manager.h:56-59 | the buckets become `Pruned` of the old ones (whose properties are the `Pruned*` lemmas); observers are unchanged |
| `Breadcrumbs.BreadcrumbManager.GetEventCount` | chrome/browser/crash_report/breadcrumbs/breadcrumb_manager.h:24-27 | prunes, then returns the number of events left, never more than before and never below min(before, minimum) |
| `Breadcrumbs.BreadcrumbManager.GetEvents` | chrome/browser/crash_report/breadcrumbs/breadcrumb_manager.h:29-35 | prunes, then returns `Newest` of the remaining events for the limit |
| `Breadcrumbs.BreadcrumbManager.AddObserver` | chrome/browser/crash_report/breadcrumbs/breadcrumb_manager.h:45-47 | the observer is registered last; events are unchanged |
| `Breadcrumbs.BreadcrumbManager.RemoveObserver` | chrome/browser/crash_report/breadcrumbs/breadcrumb_manager.h:45-47 | the observer's first registration is taken out and the others keep their order; a registry of just that observer becomes empty, ready for destruction; events are unchanged |
| `WebStatePolicy.PolicyDecision.Allow` | web/public/navigation/web_state_policy_decider.h:25-26 | the allowing decision allows and does not cancel |
| `WebStatePolicy.PolicyDecision.Cancel` | web/public/navigation/web_state_policy_decider.h:28-29 | the cancelling decision cancels and does not allow |
| `WebStatePolicy.PolicyDecision.DefaultInitialized` | web/public/navigation/web_state_policy_decider.h:49-50 | a decision left at its default is the allowing one |
| `WebStatePolicy.PolicyDecision.ShouldAllowNavigation` | web/public/navigation/web_state_policy_decider.h:31-35 | a navigation is allowed exactly when it is not cancelled |
| `WebStatePolicy.PolicyDecision.ShouldCancelNavigation` | web/public/navigation/web_state_policy_decider.h:34-35 | the navigation will be cancelled exactly when the decision is not to allow it |
| `WebStatePolicy.DecisionIsAllowOrCancel` | web/public/navigation/web_state_policy_decider.h:38-45 | every decision is exactly one of Allow() and Cancel() |
| `WebStatePolicy.WebStatePolicyDecider.constructor` | web/public/navigation/web_state_policy_decider.h:102-103 | a new decider holds the web state it subscribed to |
| `WebStatePolicy.WebStatePolicyDecider.ShouldAllowRequest` | web/public/navigation/web_state_policy_decider.h:74-80 | by default every request, with any request info, is allowed |
| `WebStatePolicy.WebStatePolicyDecider.ShouldAllowResponse` | web/public/navigation/web_state_policy_decider.h:82-91 | by default every response, main frame or not, is allowed |
| `WebStatePolicy.WebStatePolicyDecider.ResetWebState` | web/public/navigation/web_state_policy_decider.h:109-113 | after a reset the decider holds no web state |

## Left out

- AddEvent: it keeps bucket times in order only when `now` is not earlier than the newest bucket. The source reads the wall clock, and a clock that runs back would make a bucket older than the one before it.
- The observer notifications that follow a change to the log are left out. Their calls are not in the source.
- The timestamp text, the retention window and the minimum kept are parameters. Their values are not in the source. Properties that need the timestamp rely only on it holding no space and no newline. The renderer sees only whole minutes since creation, so events logged in the same minute get the same timestamp text. The model stamps lines at minute resolution.
- The bodies of the manager's operations are not in the source. The model's `AddEvent` does not prune, because the header documents pruning only for the two getters.
- A fixed count ceiling on the log is not modelled. The header states only the age window and the minimum kept.
- SetPreviousEvents: the restored events count as logged at the creation minute. They become stale once the retention window has passed since then, and the first getter after that drops them as soon as at least the minimum number of newer events exist.
- SetPreviousEvents: the restored bucket is an ordinary bucket of the creation minute. When the log was empty at restore time, events then logged in the creation minute join it (`AddedToRestoredBucket`). They are then pruned together with the batch, as one unit. The model does not keep restored events in a bucket of their own. Every time in the model is a whole minute, so the creation time cannot fall between minutes.
- SetPreviousEvents: it keeps bucket times in order only when no bucket is older than the manager. The clock can run back, so this is stated as a condition.
- The destructor is not an operation in Dafny. Its requirement of an empty registry is stated as the predicate `ReadyForDestruction`.
- Registering the same observer twice is not rejected. That check belongs to the base observer list, which is not part of this model.
- `NSURLRequest` and `NSURLResponse` are reduced to a URL, and the page transition type is reduced to its number. The default decisions do not look at them.
- Subclasses that override `ShouldAllowRequest` and `ShouldAllowResponse` are not modelled. Only the base behaviour is stated.
- `WebStateDestroyed` is an empty hook and is not modelled.
- The constructor's subscription, which registers the decider with its web state, is not modelled. Neither is the destructor, which removes the decider from its web state. The web state's list of deciders is not part of this model.
- Running several deciders together and deciding a response asynchronously are not modelled. Neither is in the source.
- The `RequestInfo` default member initialisers are not modelled. Its only constructor sets all three fields.

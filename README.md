# Session controller and appointment list of the TechManaus support scheduler

The application is a single-page front end for booking IT support visits. A
user registers or logs in, requests a visit, is assigned a technician and
can list or cancel pending requests. Nothing is persisted and no credential is
checked. All non-presentational logic lives in two places, and this project
models both:

- `src/pages/Index.tsx`, the **session controller** (module `Index`). It
  holds four React state cells: the current screen, the signed-in user, the
  appointments of the session and the appointment just scheduled. Its event
  handlers (login, register, schedule, edit, cancel, logout and the navigation
  callbacks) each apply one update to those cells. The `switch` over the
  screen decides which component is rendered, so it also decides which
  handlers can be invoked. The model is the class `Index.Session`, with one
  method per handler. Beside it are pure functions for the id generator, the
  technician draw, the display-name derivation, the list filter and the
  dispatch table (`Offered`).
- `src/components/AppointmentsList.tsx`, the **appointment list** (module
  `AppointmentsList`). It has the two status mappings, the rule that only a
  requested (`solicitado`) appointment offers edit and cancel buttons, and the
  two-step cancel confirmation held in its `confirmCancel` state. The
  confirmation is the class `CancelConfirmation`, specified by the pure
  function `Toggle`. Runs of clicks are described by `Run`.

Supporting modules: `Wrappers` (the `Option` type standing for `T | null`),
`Records` (the `User`, `Status` and `Appointment` records, which both files
declare with the same shape) and `JsText`. `JsText` writes out the JavaScript
built-ins the controller relies on: `Number.prototype.toString` on a
non-negative integer, `slice(-k)`, `split('@')[0]` and ASCII `toUpperCase`.

Non-determinism becomes parameters:
- `Date.now().toString()` is the `clock` string passed to
  `HandleSchedule`. For a clock of `now` milliseconds that string is
  `NatToString(now)`, and the id lemmas are stated for it.
- `Math.random()` is `roll`, a real number in [0, 1).

Each toast becomes a returned `Notice(title, description)`.

The class invariant `Session.Valid()` (the predicate `Consistent`) says two
things. First, the dispatch never falls into one of its `: null` branches: a
screen that needs a user always has one, and the confirmation screen always
has a current appointment. Second, every record is `solicitado` and has a
technician from the three-name roster. Every handler keeps it, given the
preconditions that the view imposes. `Navigate` requires the callback to be
one that the rendered view passes down. `HandleSchedule` requires a signed-in
user, because the schedule form renders only then.

In four places the code does less than a reader might expect, and the model follows the code:
- Cancelling does not clear `currentAppointment`, even when the cancelled
  record is the current one (src/pages/Index.tsx:97-103).
- Ids are not unique. Two clocks that agree modulo 10^6 give the same id,
  and a later cancel then removes both records (`AppointmentIdsCollide`).
- Navigation to a screen that needs a user is not a no-op in the
  controller. The component that would offer it is simply not rendered, so
  no such callback exists (`Offered`).
- No date is validated, so a past date is accepted by `HandleSchedule`.

## Model

| member | source | states |
|---|---|---|
| `JsText.NatToString` | src/pages/Index.tsx:38 | `Date.now().toString()` is a non-empty string of decimal digits, with no leading zero unless the number is 0 |
| `JsText.NatToStringLength` | src/pages/Index.tsx:38 | a number of at least 10^k prints as at least k+1 characters |
| `JsText.NatToStringSuffix` | src/pages/Index.tsx:38 | the last k characters of the decimal string are the number's k lowest decimal digits |
| `JsText.LastDigitsEqual` | src/pages/Index.tsx:38 | the k lowest digits of two numbers agree exactly when the numbers agree modulo 10^k (both directions) |
| `JsText.SliceFromEnd` | src/pages/Index.tsx:38 | `slice(-k)` keeps the last k characters, or the whole string when it is shorter or when k is 0 (`slice(-0)` is `slice(0)`), and the string is the dropped prefix followed by the slice |
| `JsText.BeforeAt` | src/pages/Index.tsx:48 | `split('@')[0]` is a prefix without '@' that ends at the first '@' or at the end of the string |
| `JsText.UpperAscii` | src/pages/Index.tsx:48 | `toUpperCase` on one character maps `a..z` to `A..Z` and leaves every other character alone |
| `JsText.Capitalize` | src/pages/Index.tsx:48 | `charAt(0).toUpperCase() + slice(1)` keeps the length, upper-cases the first character and keeps the rest; the empty string stays empty |
| `Index.GenerateAppointmentId` | src/pages/Index.tsx:37-39 | the id is "TM" followed by the last min(6, length) characters of the clock string: the clock is the dropped prefix followed by everything after "TM" |
| `Index.AppointmentIdFormat` | src/pages/Index.tsx:37-39 | from 100000 ms on, the id has eight characters: "TM" and the clock's six lowest digits, zero-padded |
| `Index.AppointmentIdsCollide` | src/pages/Index.tsx:37-39 | two such clocks give equal ids if and only if they agree modulo 10^6 |
| `Index.CloseClocksGiveDistinctIds` | src/pages/Index.tsx:37-39 | two schedules less than 1000 seconds apart get different ids |
| `Index.TechnicianIndex` | src/pages/Index.tsx:41-43 | `Math.floor(Math.random() * 3)` is an index below 3, namely the third of [0, 1) the roll falls in |
| `Index.GetRandomTechnician` | src/pages/Index.tsx:35-43 | the drawn technician is one of the three-name roster |
| `Index.DisplayName` | src/pages/Index.tsx:47-50 | the login name is the part of the e-mail before its first '@', with the first character upper-cased (ASCII) and the rest unchanged; it is empty exactly when the e-mail is empty or starts with '@' |
| `Index.DisplayNameOfAddress` | src/pages/Index.tsx:48 | an address whose local part has no '@' gives exactly that local part, capitalised, whatever the domain |
| `Index.DisplayNameExample` | src/pages/Index.tsx:48 | "alice@example.com" gives "Alice" |
| `Index.LoginNotice` | src/pages/Index.tsx:53-56 | the login toast has the login title and a description that starts with the "Bem-vindo de volta, " greeting, continues with the derived name and ends with "!", with nothing else in it |
| `Index.RegisterNotice` | src/pages/Index.tsx:64-67 | the registration toast has the registration title and a description that starts with the "Bem-vindo ao TechManaus, " greeting, continues with the name as given and ends with "!", with nothing else in it |
| `Index.ScheduleNotice` | src/pages/Index.tsx:84-87 | the schedule toast has the confirmation title and a description that is exactly "Técnico ", then the assigned technician, then " foi atribuído ao seu atendimento." |
| `Index.EditNotice` | src/pages/Index.tsx:91-94 | the edit toast has the "in development" title and the fixed "not available yet" text, naming no appointment |
| `Index.CancelNotice` | src/pages/Index.tsx:99-102 | the cancel toast has the cancellation title and the fixed success text, naming no appointment |
| `Index.LogoutNotice` | src/pages/Index.tsx:110-113 | the logout toast has the logout title and the text "Até logo!" |
| `Index.Renders` | src/pages/Index.tsx:116-181 | the `switch` renders a component exactly when a screen that needs a user (dashboard, schedule, confirmation, list) has one and the confirmation screen also has a current appointment; the guards are at lines 141, 150, 159 and 169 |
| `Index.Offered` | src/pages/Index.tsx:116-181 | the dispatch offers callbacks exactly when it renders a component, and offers logout exactly on the four signed-in screens when they render |
| `Index.NavigationTable` | src/pages/Index.tsx:116-181 | a navigation callback to t exists on screen s exactly when s renders and (s, t) is one of the twelve listed edges |
| `Index.NavigationKeepsSide` | src/pages/Index.tsx:116-181 | navigation never moves between the signed-out and signed-in screens and never leads to the confirmation screen |
| `Index.WithoutId` | src/pages/Index.tsx:98 | the filter never grows the list, keeps exactly the records whose id differs, and returns the list unchanged when the id is absent |
| `Index.WithoutIdAppend` | src/pages/Index.tsx:98 | filtering a concatenation is the concatenation of the filtered parts, so kept records stay in their relative order |
| `Index.WithoutIdSingle` | src/pages/Index.tsx:98 | one record is kept exactly when its id differs from the cancelled id |
| `Index.WithoutIdShrinks` | src/pages/Index.tsx:98 | cancelling an id that occurs in the list makes it strictly shorter |
| `Index.WithoutIdIdempotent` | src/pages/Index.tsx:97-98 | cancelling the same id a second time changes nothing |
| `Index.CancelUndoesSchedule` | src/pages/Index.tsx:80-98 | cancelling the record just appended leaves the earlier list filtered by the same id |
| `Index.ScheduleKeepsConsistent` | src/pages/Index.tsx:70-82 | appending a requested roster record, with a user signed in, and showing the confirmation keeps the controller invariant |
| `Index.ListedRecordsOfferActions` | src/components/AppointmentsList.tsx:171-194 | while the invariant holds, every listed record shows the edit and cancel buttons |
| `Index.Session.constructor` | src/pages/Index.tsx:29-32 | a session starts on the welcome screen with no user, no appointments and no current appointment |
| `Index.Session.Navigate` | src/pages/Index.tsx:116-181 | a navigation callback the rendered view offers sets the screen to its target, changes nothing else and keeps the invariant |
| `Index.Session.HandleLogin` | src/pages/Index.tsx:45-57 | login sets the user to the derived name and the given e-mail, shows the dashboard, leaves the appointments and the current appointment alone, and announces the derived name |
| `Index.Session.HandleRegister` | src/pages/Index.tsx:59-68 | registering sets the user to exactly the given name and e-mail, shows the dashboard and changes nothing else |
| `Index.Session.HandleSchedule` | src/pages/Index.tsx:70-88 | scheduling appends exactly one record (clock id, given date, time and description, drawn technician, `solicitado`) after all earlier ones, makes it the current appointment, shows the confirmation and leaves the user alone |
| `Index.Session.HandleEditAppointment` | src/pages/Index.tsx:90-95 | editing changes no state and only announces that the feature is unavailable |
| `Index.Session.HandleCancelAppointment` | src/pages/Index.tsx:97-103 | cancelling replaces the list by its filter on the id and leaves the screen, the user and the current appointment alone |
| `Index.Session.HandleLogout` | src/pages/Index.tsx:105-114 | logout clears the user, the appointments and the current appointment and shows the welcome screen |
| `Index.RegisterScheduleCancel` | src/pages/Index.tsx:59-103 | register, schedule and confirm a cancel through the list: the record is requested, has a roster technician and the clock id, and the list ends empty |
| `Index.LoginAfterLogout` | src/pages/Index.tsx:45-114 | from any signed-in screen and any valid session, logout, navigation to the login form and login leave an empty list, no current appointment, the newly derived user and the dashboard, whatever the earlier session held |
| `AppointmentsList.GetStatusColor` | src/components/AppointmentsList.tsx:37-48 | the gray default style is returned exactly for strings that are not one of the three status literals |
| `AppointmentsList.GetStatusText` | src/components/AppointmentsList.tsx:50-61 | the label equals the input exactly when the input is not one of the three status literals |
| `AppointmentsList.StatusBadgesDistinct` | src/components/AppointmentsList.tsx:37-61 | the three statuses get pairwise different styles and labels, none of them the gray default |
| `AppointmentsList.Controls` | src/components/AppointmentsList.tsx:171-204 | edit and cancel buttons appear exactly for `solicitado` records; the cancel button is destructive and reads "Confirmar" exactly when its id is armed, "Cancelar" otherwise |
| `AppointmentsList.Toggle` | src/components/AppointmentsList.tsx:73-80 | a click fires the cancel callback if and only if its id was armed, and then with that id and disarms; otherwise it arms the clicked id |
| `AppointmentsList.DoubleClickCancelsOnce` | src/components/AppointmentsList.tsx:73-80 | two clicks on one button, from unarmed, cancel that id exactly once and leave the list unarmed |
| `AppointmentsList.MovingTheArmCancelsNothing` | src/components/AppointmentsList.tsx:77-79 | clicks that never repeat the previous id cancel nothing, and the arm ends on the last id clicked |
| `AppointmentsList.CancellationsNeedTwoClicks` | src/components/AppointmentsList.tsx:73-80 | n clicks cancel at most n/2 times (one more if the run started armed) |
| `AppointmentsList.CancelledWereClicked` | src/components/AppointmentsList.tsx:73-80 | only ids that were clicked are ever cancelled |
| `AppointmentsList.RunSnoc` | src/components/AppointmentsList.tsx:73-80 | a run extended by one click is the earlier run followed by that click's toggle: its arm is the new arm and its cancellations gain at most the clicked id |
| `AppointmentsList.FiringNeedsPrecedingArm` | src/components/AppointmentsList.tsx:73-80 | the i-th click of a run cancels its id if and only if that id was armed before it, and otherwise cancels nothing; an armed id is the previous click's id, or for the first click the id the run started armed on |
| `AppointmentsList.CancelConfirmation.constructor` | src/components/AppointmentsList.tsx:35 | a freshly mounted list has nothing armed |
| `AppointmentsList.CancelConfirmation.HandleCancelAppointment` | src/components/AppointmentsList.tsx:73-80 | one click moves `confirmCancel` and returns the fired id exactly as `Toggle` says |

## Left out

- Rendering, styling and icons: the JSX of every component, and all of `Dashboard`, `WelcomeScreen`, `Header`, `ConfirmationScreen`, `LoginForm` and `ScheduleForm`. These only forward fields and callbacks.
- `RegisterForm` is imported by `Index.tsx`, but its source is not part of this model.
- Toast delivery (`useToast`): each handler returns the notice it would show, and nothing more is said about display.
- `formatDate`: it rests on `Date` parsing and `toLocaleDateString('pt-BR')`, which are locale library calls.
- Form validation: the `required` attributes and the `min` date constraint of the schedule form are enforced by the browser. The controller checks nothing, so a date in the past is not rejected.
- Index.DisplayName: `toUpperCase` is modelled for ASCII letters only. Other characters are left unchanged here, while JavaScript maps, for example, 'é' to 'É' and 'ß' to "SS". The model also works on Unicode code points, not UTF-16 units.
- Index.TechnicianIndex: `Math.random() * 3` is computed in exact real arithmetic, not IEEE doubles. The roll itself is a parameter, so uniformity is stated only as "each third of [0, 1) gives one technician".
- Index.AppointmentIdFormat: the id lemmas assume a clock of at least 100000 ms, which every real `Date.now()` exceeds. Below that, the id simply has fewer than six digits.
- Id uniqueness: the code does not guarantee it, and no lemma claims it.
- Index.Session.Navigate: it requires the callback to be one the rendered component passes down, since the code has no other caller. A navigation from anywhere else is therefore not modelled, not even as a no-op.
- The `confirmCancel` state is lost whenever the list unmounts. This is modelled by constructing a new `CancelConfirmation` for each visit to the list, not by tying its lifetime to the screen field.
- Decorative text ("DevOps pipeline", e-mail notifications): it describes nothing the code does.

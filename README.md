# A-OK Hay inquiry script — a Dafny model

This project models the sequential core of the hay supplier's browser
script `Js/hay.js`. The document is replaced by plain values:
- field contents are strings;
- the three product checkboxes are booleans;
- the pages and navigation links are arrays of `active` flags.

Six modules, one per component:

- `Text` holds the JavaScript platform behaviour the script relies on:
  - the `\s` class and `String.prototype.trim` (both use ECMAScript's
    WhiteSpace and LineTerminator code points);
  - first-occurrence search, which is how `getElementById` picks among
    duplicate ids;
  - `Array.prototype.join`, together with a split that inverts it.
- `Validation` models `validateForm`:
  - the required-field check after trimming;
  - the email pattern `^[^\s@]+@[^\s@]+\.[^\s@]+$`, as a hand-written matcher
    proved equal to a definition read off the pattern;
  - the phone pattern `^[\d\s\-\(\)\+]+$`;
  - the rule that the first failing check decides.
- `Products` models `getSelectedProducts`:
  - it is imperative, with successive pushes and then a join;
  - it is specified by a filter over the fixed catalogue order;
  - a reader function shows the string is lossless;
  - it also holds the exact-name ticking done by the product call-to-action.
- `Pages` models `showPage` as a class over two arrays of `active` flags, plus
  a flag for the collapsible mobile menu.
- `Submission` models `handleFormSubmit`:
  - the `formData` payload;
  - a `ContactForm` class holding the field values, the checkboxes, the
    submit button's label and `disabled` flag, the success message and an
    outbox of sent payloads;
  - the two halves of the submission: `Submit`, the synchronous part, and
    `Complete`, run when the request settles.
- `Site` models `handleProductInquiry`: it shows the `contact` page and ticks a
  box.

## Model

| member | source | states |
|---|---|---|
| Text.TrimStartSpec | Js/hay.js:32-38 | leading trim keeps a suffix of the input, removes only whitespace, and leaves no leading whitespace |
| Text.TrimEndSpec | Js/hay.js:32-38 | trailing trim keeps a prefix of the input, removes only whitespace, and leaves no trailing whitespace |
| Text.TrimSpec | Js/hay.js:32-38 | `trim()` gives the empty string exactly when the value is all whitespace; otherwise the result starts and ends with a non-whitespace character |
| Text.IndexOf | Js/hay.js:8 | the index found holds the element sought and no earlier index does; the result is None exactly when the element is absent; `Pages.PageLookup`, the lookup standing for `getElementById`, uses it for every non-empty name and returns None for the empty one |
| Text.SplitJoin | Js/hay.js:75 | `join(', ')` can be undone: splitting the joined string gives back any non-empty list, provided no item contains `,` (the empty list joins to `""`, which splits to `[""]`) |
| Validation.EmailOkSound | Js/hay.js:47-48 | every string the hand-written matcher accepts is in the language of the email pattern |
| Validation.EmailOkComplete | Js/hay.js:47-48 | every string in the language of the email pattern is accepted by the matcher |
| Validation.EmailOkMatchesPattern | Js/hay.js:47-48 | the matcher and the pattern accept exactly the same strings |
| Validation.EmailPatternShape | Js/hay.js:47-48 | a matching email has exactly one `@`, no whitespace, a non-empty part before the `@`, and after it a `.` that is neither the first nor the last character of that part |
| Validation.ShapeIsEmailPattern | Js/hay.js:47-48 | conversely, exactly one `@`, no whitespace, a non-empty part before the `@` and a `.` after it that is neither first nor last make a match, so the pattern accepts exactly the strings of that shape |
| Validation.PhoneExample | Js/hay.js:54-55 | `+1 (555) 123-4567` matches the phone pattern; `555-CALL-NOW` does not |
| Validation.ValidateSpec | Js/hay.js:31-61 | the required-field alert is raised exactly when a trimmed field is empty or the untrimmed inquiry type is empty; the email alert exactly when all are present but the trimmed email fails its pattern; the phone alert exactly when the email passes but the trimmed phone fails; the form is accepted exactly when all three checks pass |
| Validation.AcceptedFieldsAreWellFormed | Js/hay.js:32-60 | an accepted form has no blank required field and a non-empty inquiry type, a trimmed email with exactly one `@`, and a non-empty trimmed phone made only of digits, whitespace and `-()+` |
| Products.Label | Js/hay.js:66-74 | every label pushed is non-empty and contains no comma |
| Products.SelectedProducts | Js/hay.js:64-76 | the pushes, the join and the `'None selected'` fallback yield the catalogue-filter string `ProductsField` |
| Products.SelectedCatalogue | Js/hay.js:65-74 | the list is Timothy Hay, Alfalfa Hay, Both Products, in that order, each present exactly when its box is checked |
| Products.SelectedMembers | Js/hay.js:65-74 | a label is listed exactly when its box is checked; the list is no longer than the catalogue; no label is empty or contains a comma |
| Products.SelectedDistinct | Js/hay.js:65-74 | from a list of distinct boxes, no label is listed twice |
| Products.ProductsListedOnce | Js/hay.js:65-74 | the products list built from the three boxes holds each label at most once |
| Products.ProductsRoundTrip | Js/hay.js:64-76 | splitting the products string on `, ` and looking for each label gives back exactly the checkbox state it was built from |
| Products.ProductsNoneSelected | Js/hay.js:75 | the products string is never empty, and it is `None selected` exactly when no box is checked |
| Products.ProductsInjective | Js/hay.js:64-76 | different checkbox states give different products strings |
| Products.ProductsExamples | Js/hay.js:64-76 | no box gives `None selected`; timothy alone gives `Timothy Hay`; timothy and alfalfa give `Timothy Hay, Alfalfa Hay` |
| Products.Prefill | Js/hay.js:257-261 | only the exact name `Timothy Hay` ticks timothy, and only `Alfalfa Hay` ticks alfalfa; `both` is never touched, nothing is unticked, and any other name changes nothing |
| Products.PrefilledProductIsListed | Js/hay.js:257-261 | after ticking for a known product, the products string of a later submission lists that product |
| Pages.ShownPages | Js/hay.js:4-11 | only the first page whose id is the name can be active, so at most one page is; some page is active exactly when the name is a non-empty page id, and an unknown or empty name (for which `getElementById` returns null) leaves every page inactive |
| Pages.PageView.ShowPage | Js/hay.js:2-28 | after the call the page flags are `ShownPages(ids, name)` whatever they were before, so at most one page is active; every nav link is inactive; the mobile menu is closed |
| Pages.ShowPageAgain | Js/hay.js:2-15 | `showPage` is idempotent: called on the state a `showPage(name)` leaves, a second `showPage(name)` leaves the pages, links and menu unchanged |
| Submission.VolumeField | Js/hay.js:96 | the volume sent is never empty; it is the raw value when that is non-empty, and `Not specified` exactly when the raw value is empty or is that text itself |
| Submission.BuildPayload | Js/hay.js:88-99 | every text field is copied raw, not trimmed; the timestamp is the one given; volume is the raw value when non-empty and `Not specified` when empty; products is non-empty and reads back as the checkbox state |
| Submission.PayloadDeterminesInput | Js/hay.js:88-99 | two inputs with the same payload have the same checkboxes, timestamp and fields, except that an empty volume and a volume of `Not specified` are not told apart |
| Submission.GatherFormData | Js/hay.js:88-99 | the `formData` literal built with `getSelectedProducts` equals `BuildPayload` |
| Submission.ContactForm.Submit | Js/hay.js:79-105 | a form that fails validation sends nothing and leaves the button unchanged; otherwise the payload is appended to the outbox, the label shown before is captured, and the button is disabled with the loading label |
| Submission.ContactForm.Complete | Js/hay.js:116-145 | on every outcome the button is re-enabled with the captured label; a reply with `success` shows the success message and resets fields and boxes to their defaults; any other reply or an error leaves the form and the message as they were |
| Submission.ContactForm.HideSuccessMessage | Js/hay.js:130-132 | the success message is hidden |
| Submission.ContactForm.TickProduct | Js/hay.js:256-261 | the boxes become `Prefill` of the old boxes and the product name |
| Submission.SubmitAndComplete | Js/hay.js:79-145 | from an enabled button, one submission ends with the button enabled and its label exactly as before; a payload is sent exactly when validation passes; the form is reset and the success message shown only when it was sent and the reply reports success; otherwise fields, boxes and the success message are unchanged |
| Site.HandleProductInquiry | Js/hay.js:252-269 | the `contact` page is shown as `showPage` shows it, nav links are inactive, the menu is closed, and the boxes become `Prefill` of the old boxes and the product name |

## Left out

- The `fetch` POST, the JSON encoding of the payload and decoding of the
  reply, and `console` logging (Js/hay.js:108-115, 135, 141). These are
  network I/O against a backend that is not part of this model. A request
  is an entry in the form's `sent` outbox. Its end is an `Outcome`:
  `Replied(success)` for a parsed reply, or `TransportError` for a network
  failure or a body that is not JSON. The flag `success` is the truthiness
  of the reply's `success` member: the JSON value itself is not modelled,
  so a reply of `{"success": "false"}` is `Replied(true)`.
- The `setTimeout` delays (the 5-second hide of the success message and
  the 300 ms inquiry delay). Timing and event-loop scheduling are not
  modelled. Each delayed body is a separate method that a caller runs
  later: `ContactForm.HideSuccessMessage` and `ContactForm.TickProduct`.
- Pages.PageView.ShowPage: `window.scrollTo` is not modelled. The jQuery
  `collapse('hide')` call is reduced to clearing the `menuOpen` flag.
- Pages.ShownPages: `getElementById(name)` searches the whole document.
  When `name` is the id of an element that is not a page (a form field such
  as `email`), the script puts `active` on that element. The model sees only
  the pages, so there no page is active and the other element is not
  modelled. Likewise, a non-page element with the same id that comes before
  a page is not modelled.
- Site.HandleProductInquiry: `scrollIntoView` on the form is not modelled.
  Nor is the case where the contact form is missing from the document.
- Submission.ContactForm.Complete: the `alert` shown on failure is not
  modelled. Neither is an exception thrown inside the reply handler (which
  would also reach the error branch). Both are covered by `TransportError`
  only in that the button is restored.
- Validation.ValidateSpec: the `alert` texts are not modelled. The verdict
  names which alert is raised.
- Submission.BuildPayload: `new Date().toISOString()` is a parameter,
  `timestamp`.
- `animateCounters` is not modelled. It uses floating-point increments,
  `parseInt` and an IntersectionObserver.
- `initScrollAnimations`, `initSmoothScroll` and `initNavbarScroll` are not
  modelled. They are cosmetic style changes.
- The `DOMContentLoaded` and `popstate` wiring, the `initProductFilter`
  placeholder and the `window` exports are not modelled. They are event
  wiring with no logic of their own.
- A second submission while one is in flight is not prevented by the
  model, just as the disabled button is the script's only guard. Such a
  submission would capture the loading label as its "original" label. The
  model keeps that behaviour, because `Request` carries the label captured
  at its own submit.
- The form's `reset()` is modelled as restoring the field and checkbox
  values given to the `ContactForm` constructor, standing for the markup's
  defaults.

# Adoption site: form validation, FAQ accordion and navigation

A Dafny model of the client-side logic of an animal-adoption website, all of it in `js/main.js`:

- the per-field validator shared by the contact form and the adoption form (`validateField`, `validateAdoptField`) and their two rule tables;
- the e-mail pattern `/^[^\s@]+@[^\s@]+\.[^\s@]+$/`, written out as an explicit predicate on characters;
- form-level validation and field marking (`validateForm`, `setFieldState` and the adoption copies);
- re-validation on focus-out and the live character counter;
- the two submit handlers. The outcome of the HTTP request is an input;
- the FAQ accordion, over an array of question items;
- the mobile navigation toggle, as a two-flag state machine;
- the back-to-top and header-shadow scroll thresholds.

Modules and files:

| file | module | contents |
|---|---|---|
| `wrappers.dfy` | `Wrappers` | `Option` |
| `text.dfy` | `Text` | JavaScript white space and `trim()`, UTF-16 `length`, decimal rendering of numbers |
| `email.dfy` | `Email` | the e-mail check and its equivalence with the regular expression |
| `rules.dfy` | `Rules` | rule tables, the validator, and lemmas on check order and boundaries |
| `counter.dfy` | `CharCounter` | counter text and colour |
| `forms.dfy` | `Forms` | a form on the page (`class Form`): marking, focus-out, editing, submit |
| `faq.dfy` | `Faq` | the accordion click over `array<Item>` |
| `nav.dfy` | `Nav` | the navigation toggle (`class NavMenu`) |
| `scroll.dfy` | `Scroll` | the scroll thresholds |

`validateField` and `validateAdoptField` have identical bodies and differ only in the table they read. Both are modelled by one function, `Rules.ValidateField`, which takes the table as a parameter. The contact validator is `ValidateField(ContactRules.rules, …)` and the adoption validator is `ValidateField(AdoptRules.rules, …)`. Likewise, `class Form` runs the same code for both forms. A `FormConfig` value (`ContactForm` or `AdoptForm`) holds everything in which the two forms differ: the table, the status texts and the counter limits.

Modelling choices:

- **How values are read.** The validator sees values as the browser gives them:
  - the length is JavaScript's, in UTF-16 code units (`Text.Utf16Length`);
  - `trim()` and `\s` use ECMAScript's white-space set (`Text.IsWhitespace`);
  - an absent `minLength` is modelled as 0, because `rule.minLength && …` treats the two alike.
- **Check order.** The consent check (js/main.js:216) runs before the required-value check (js/main.js:217); the model follows the code.
- **The consent checkbox never validates.** Both `validateForm` and the focus-out listener pass `''` as the value of a checkbox. So a ticked `lgpd` checkbox fails the required check with "Política de Privacidade é obrigatório.". An unticked one gets the privacy-policy message. As a result, neither form can pass validation while its `lgpd` control is a checkbox. The model keeps this behaviour as written and proves it (`Rules.ConsentCheckboxNeverValidates`, `Forms.ConsentBoxBlocksSubmission`).
- **Inputs.** Element presence is a boolean or an `Option`: the error element of a control, the status element, the submit button, the counter. The request's outcome is the `Outcome` input. For `document` clicks, the only input is whether the click landed inside the header.

## Model

| member | source | states |
|---|---|---|
| Text.TrimIsInfix | js/main.js:217 | `trim()` returns the infix of the value left after white space is removed at both ends, and the result neither starts nor ends with white space |
| Text.TrimEmptyIffAllWhitespace | js/main.js:217 | `value.trim() === ''` holds exactly when the value is all white space |
| Text.TrimOfTrimmed | js/main.js:219 | a value with no white space at its ends is its own trim |
| Text.Utf16Length | js/main.js:219 | `length` counts UTF-16 code units: at least the number of code points and at most twice it, and exactly that number when every code point is in the Basic Multilingual Plane |
| Text.NatToString | js/main.js:220 | `${n}` renders a non-empty string of decimal digits, with more than one digit exactly when `n >= 10` |
| Text.ParseNatToString | js/main.js:279 | reading the rendering of `n` back gives `n` |
| Text.LeadingDigitsOfRendering | js/main.js:279 | the digits of a rendered number are recovered from the front of any text that continues with a non-digit |
| Email.EmailCheckMatchesPattern | js/main.js:204 | the explicit check (no white space, exactly one `@`, a non-empty local part, a `.` inside the domain part) accepts exactly the strings the anchored pattern `run @ run . run` matches, where a run is one or more characters that are neither white space nor `@` |
| Email.CheckImpliesPattern | js/main.js:204 | every string the check accepts matches the pattern |
| Email.PatternImpliesCheck | js/main.js:204 | every string the pattern matches is accepted by the check |
| Email.ExampleAddressMatches | js/main.js:222 | `a@b.co` passes the e-mail check |
| Email.ExampleNonAddressFails | js/main.js:222 | `not-an-email` fails the e-mail check |
| Text.Trim | js/main.js:217 | `trim()` is never longer than its argument, and a non-empty result neither starts nor ends with white space |
| Email.IsEmailAddress | js/main.js:204 | an accepted address has at least five characters and starts with neither `@` nor white space |
| Email.MatchesEmailPattern | js/main.js:204 | the anchored pattern `run @ run . run`, with a run of one or more characters that are neither white space nor `@`, written as a predicate; its agreement with the check is `Email.EmailCheckMatchesPattern` |
| Rules.ValidateField | js/main.js:211-226 | a name without a rule, or with a rule that asks for nothing, gives `''`; any other result is the name's rule's consent, required, minimum-length or fixed e-mail message (the adoption copy at js/main.js:412-427 is the same function over the other table) |
| Rules.UnknownFieldPasses | js/main.js:211-213 | a name without a rule validates to `''` |
| Rules.ValidateFieldReportsFirstFailure | js/main.js:211-226 | the validator (and its copy at js/main.js:412-427, the same function over the other table) returns the message of the first failing check, in the order consent, presence (empty, all white space or `null`), minimum length, and the regular-expression pattern of the trimmed value, and only that one; it returns `''` exactly when no check fails |
| Rules.MissingValueIsRequired | js/main.js:215-217 | a required field whose value is empty, all white space or the text `null` gets `"<label> é obrigatório."`, unless it is the unticked consent box, which gets the privacy-policy message |
| Rules.MinLengthBoundary | js/main.js:219-221 | past the earlier checks, a field with a minimum and no pattern passes exactly when its trimmed value has at least `minLength` UTF-16 units, and otherwise gets the minimum-length message |
| Rules.RuleTablesValid | js/main.js:201-208 | both rule tables have distinct keys, and each table's key order covers exactly its rules (the adoption table is at js/main.js:399-409) |
| Rules.ContactMinLengths | js/main.js:202-206 | in the contact form, nome and sobrenome have minimum 2 and mensagem 10; such a field that is present passes exactly when its trimmed length reaches the minimum |
| Rules.AdoptMinLengths | js/main.js:400-407 | in the adoption form: nome and sobrenome 2, telefone 8, cidade 3, mensagem 15, with the same boundary |
| Rules.NomeTooShortExample | js/main.js:219-220 | contact nome `a` gives "Nome deve ter no mínimo 2 caracteres." |
| Rules.NomeLongEnoughExample | js/main.js:219 | contact nome ` ab ` passes, since the length is taken after trimming |
| Rules.EmailFieldFollowsPattern | js/main.js:222-223 | in both forms, a present e-mail value passes exactly when its trimmed value matches the pattern, and otherwise gets "Informe um e-mail válido." |
| Rules.EmailFieldAcceptsExample | js/main.js:222-223 | the e-mail field accepts `a@b.co` |
| Rules.EmailFieldRejectsExample | js/main.js:222-223 | the e-mail field rejects `not-an-email` with the fixed e-mail message |
| Rules.ConsentCheckboxNeverValidates | js/main.js:215-217 | with value `''` as the forms pass it, lgpd gives the privacy-policy message when unticked and "Política de Privacidade é obrigatório." when ticked, so it never validates |
| Rules.SharedFieldsAgree | js/main.js:399-409 | on nome, sobrenome, email and lgpd, the adoption validator and the contact validator agree on every input |
| CharCounter.Render | js/main.js:276-282 | the counter text shows the UTF-16 length of the value as its leading number; the counter turns the warning colour exactly when that length exceeds the threshold, and is muted otherwise (the same for js/main.js:478-484) |
| CharCounter.CounterText | js/main.js:279 | the number read from the front of `"<len> / <limit>"` is `len` |
| CharCounter.CounterTextInjective | js/main.js:279 | different lengths give different counter texts |
| CharCounter.ResetTexts | js/main.js:343 | the reset texts are `0 / 1000` and `0 / 800` (js/main.js:537) |
| Forms.FormValue | js/main.js:250 | the form-level validation passes `''` for a checkbox, whatever its state, and the control's own value for every other control |
| Forms.FormChecked | js/main.js:251 | the `checked` argument is false only for an unticked checkbox |
| Forms.Mark | js/main.js:229-240 | a marked control carries exactly one of `has-error`/`is-valid`, `has-error` exactly when the message is not `''`; an existing error element holds the message; value, checked state and kind are kept (the adoption copy is js/main.js:430-442) |
| Forms.MarkAll | js/main.js:247-255 | marking keeps the set of controls and leaves every control without a rule unchanged |
| Forms.ResetControl | js/main.js:337-342 | after `form.reset()` a control holds its markup default value and checked state, and a `form-input` carries neither mark; its error element and kind are kept |
| Forms.ResetAll | js/main.js:337-342 | resetting keeps the set of controls (the adoption copy is js/main.js:533-536) |
| Forms.Show | js/main.js:285-292 | showing the status makes an existing element visible with the given kind and message, and never creates one (also js/main.js:487-494) |
| Forms.Hide | js/main.js:294-297 | hiding the status makes an existing element hidden and empty and keeps its kind (also js/main.js:502-503) |
| Forms.ResetCounter | js/main.js:343 | an existing counter shows 0 as its count and keeps its colour; a missing one stays missing (also js/main.js:537) |
| Forms.FirstWithError | js/main.js:316 | `querySelector('.has-error')` finds the first control in document order carrying `has-error`, or nothing exactly when no control carries it |
| Forms.MarkPrefixIsMarkNames | js/main.js:247-255 | after the loop has handled the first `i` keys one at a time, exactly the controls those keys name have been marked |
| Forms.PrefixPassesIffKeysPass | js/main.js:252-254 | after the first `i` keys, `isValid` is still true exactly when every control those keys name validates to `''` |
| Forms.MarkNamesCoversTable | js/main.js:247 | marking every key of the table in turn is the same as marking every governed control, and all keys pass exactly when the form is valid |
| Forms.MarkAllMarksEachGovernedControl | js/main.js:229-240 | after marking, each governed control that is present carries exactly one of `has-error`/`is-valid`, `has-error` exactly when its message is not `''`, and its error element holds the message; values are kept, absent names are skipped and controls without a rule are unchanged |
| Forms.ValidIffNoErrorMarks | js/main.js:243-258 | the form is valid exactly when no governed control carries `has-error` after marking |
| Forms.MarkAllIdempotent | js/main.js:243-258 | validating a second time changes no mark and gives the same verdict |
| Forms.InvalidFormHasFocusTarget | js/main.js:314-318 | a rejected form always has a control to focus; it is a governed control whose message is not `''` unless some control without a rule carries a stale `has-error` |
| Forms.FocusOutAgreesWithSubmit | js/main.js:261-270 | focus-out and submit compute the same message for a control, except for a non-checkbox control named lgpd |
| Forms.RefocusKeepsMarks | js/main.js:261-270 | after a rejected submit, the focus-out listener, fired when focus leaves a marked control (including the move at js/main.js:317), marks it again with the same classes and message, for every control except a non-checkbox lgpd |
| Forms.ConsentBoxBlocksSubmission | js/main.js:250-252 | with a checkbox lgpd, ticked or not, neither form passes validation and lgpd is marked with an error |
| Forms.ResetAllClearsMarks | js/main.js:337-342 | after a success every control has its markup default value and checked state back, and every `form-input` has neither mark |
| Forms.ConfigurationsValid | js/main.js:343 | both configurations have well-formed tables and the reset counter texts `0 / 1000` and `0 / 800` |
| Forms.Form.ValidateForm | js/main.js:243-258 | the loop over the table keys marks every governed control present, without stopping at the first error, and returns true exactly when each one's message is `''` |
| Forms.Form.FocusOut | js/main.js:261-270 | a named, governed control that loses focus is validated with `''` for a checkbox and its own `checked` flag, then marked; every other focus-out changes nothing |
| Forms.Form.EditValue | js/main.js:276-282 | typing changes only that control's value; on the message textarea the counter is re-rendered if the page has one |
| Forms.Form.Submit | js/main.js:310-321 | the status is hidden and the form validated; if invalid, the first control with an error is picked for focus, no request is made and the loading state is untouched; if valid, the loading state starts |
| Forms.Form.Complete | js/main.js:323-353 | success shows the success status, resets values and marks and the counter text; failure shows the error status and keeps all values; in both the loading state ends |
| Forms.Form.HandleSubmit | js/main.js:310-354 | the whole handler for a given outcome: a rejected form is marked and its status hidden, it always has a focus target, and the loading state and the counter are unchanged; an accepted one ends loading after either outcome, and on success also resets the controls and the counter text (the adoption handler at js/main.js:499-552 is the same over `AdoptForm`) |
| Faq.Click | js/main.js:361-383 | the click loop turns the group's array into `AfterClick` of the old one: every other item collapsed with its answer hidden, the clicked one flipped from its value before the click |
| Faq.Collapse | js/main.js:372-376 | collapsing closes the question and hides its answer, if it has one |
| Faq.Toggle | js/main.js:381-382 | toggling flips the question's open state, and an existing answer is hidden exactly when the question is then closed |
| Faq.AfterClick | js/main.js:367-382 | a click keeps the number of questions and which of them have an answer; the rest is `Faq.ClickIsExclusive` |
| Faq.ClickIsExclusive | js/main.js:367-382 | after a click, every other item is closed and its answer hidden; the clicked item's expanded flag is flipped and its answer's `hidden` equals the old open state; at most one item is open; every existing answer is hidden exactly when its question is closed |
| Faq.ClickOnOpenClosesAll | js/main.js:381-382 | clicking an open item leaves no item open |
| Faq.OpenAnotherThenReclick | js/main.js:361-383 | with one item open, clicking another opens it and closes the first; clicking it again leaves none open |
| Nav.Toggled | js/main.js:28-32 | after a toggle click both flags equal the negation of the old `aria-expanded` |
| Nav.AfterDocumentClick | js/main.js:43-49 | a document click either changes nothing or closes the nav, and one inside the header changes nothing |
| Nav.AfterKeyDown | js/main.js:52-58 | a key press either changes nothing or closes the nav, and any key other than Escape changes nothing |
| Nav.ToggleFlipsBoth | js/main.js:28-32 | after a toggle click both flags equal the negation of the old `aria-expanded`; from a consistent state both flip and two clicks restore it |
| Nav.ToggleClickBubbles | js/main.js:28-49 | a toggle click also reaches the document listener: with the button inside the header the toggled state stands, while a button outside it would leave the nav closed after any click |
| Nav.ClosingEvents | js/main.js:43-58 | an outside click or Escape turns an open nav into the closed state, and on a closed nav neither changes anything; both keep the flags consistent, and Escape is idempotent |
| Nav.NavMenu.ToggleClick | js/main.js:28-32 | the button's listener sets both flags to the negation of `aria-expanded` |
| Nav.NavMenu.LinkClick | js/main.js:35-40 | a nav link click closes the nav |
| Nav.NavMenu.DocumentClick | js/main.js:43-49 | a click outside the header closes an open nav; any other click changes nothing |
| Nav.NavMenu.KeyDown | js/main.js:52-58 | Escape closes an open nav; any other key, or a closed nav, changes nothing |
| Scroll.BackToTopShown | js/main.js:151-153 | the back-to-top button shows exactly past an offset of 400, and whenever it shows the header shadow is raised |
| Scroll.HeaderShadow | js/main.js:176-181 | the header shadow is one of the two shadows of the source, the raised one exactly when the offset exceeds 10 |
| Scroll.ThresholdBoundaries | js/main.js:149-153 | both thresholds are strict: at exactly 400 the button stays hidden and at exactly 10 the shadow is resting (js/main.js:176-180); between 10 and 400 the header is raised while the button is hidden |
| Scroll.ScrollControlsMonotone | js/main.js:151-153 | scrolling further down never hides the button or lowers the shadow, and whenever the button shows the shadow is raised |

## Left out

- Building and sending the request: `FormData`, `Object.fromEntries`, `JSON.stringify` and `fetch` (js/main.js:324-333, 519-527). These are browser APIs. Only their success or failure (`Outcome`) is modelled.
- The animated statistics counters and the reveal observers (js/main.js:69-140). They use floating point, `performance.now`, `requestAnimationFrame`, `IntersectionObserver` and locale formatting.
- The footer year (js/main.js:16-17): it depends on the clock.
- Scrolling and focus moves: `scrollTo` (js/main.js:163) and `scrollIntoView` (js/main.js:291, 493) are not modelled, and neither is any `focus()` call (js/main.js:56, 317, 507). The focus target of a rejected submit is returned instead of being focused. `console.error` and the `passive` option of the scroll listeners are not modelled either. The scroll controls are functions of whatever offset results from a scroll, so they follow `scrollTo` and `scrollIntoView` once the offset is given.
- Nav.NavMenu.KeyDown: Escape also moves focus to the toggle (js/main.js:56). When a form control had focus, the browser then fires `focusout` on it, which re-validates and re-marks that control exactly as `Forms.Form.FocusOut` does. The method changes only the two nav flags, and a caller has to apply that `FocusOut` as well.
- Forms.Form.Submit: `firstError.focus()` (js/main.js:317, 507) fires `focusout` on the control that had focus, and the next move away fires it on the control with the error. Each re-validates a control the submit has just marked. By `Forms.RefocusKeepsMarks` (via `Forms.FocusOutAgreesWithSubmit` and `Forms.MarkAllIdempotent`) that leaves its marks unchanged, except for a non-checkbox control named lgpd.
- Scroll: the `is-visible` class of the back-to-top button is set one animation frame after `hidden`. The model gives both as one function of the scroll offset and does not model the frame in between.
- Forms.FirstWithError: `querySelector('.has-error')` (js/main.js:316, 506) finds the first element of the form with that class, whatever it is. The model searches only the named controls in document order, so an unnamed element carrying `has-error` in the markup is not modelled.
- Nav.NavMenu.ToggleClick: the same click then bubbles to the document listener (js/main.js:43-49). The class models the two listeners as separate calls, so `Nav.Toggled` alone is the effect of a click only when the button sits inside `.site-header`. The page's markup is not part of this model; `Nav.ToggleClickBubbles` states the combined effect for both placements.
- Looking elements up by id or selector, including the different error-element ids of the two forms (js/main.js:230, 432). The presence of each element is an input, and the counter's textarea is the control named by `counterField`.
- `form.reset()` is modelled only on values and checked states. Radio groups, `select` elements, disabled controls and several controls sharing one name are not modelled. Nor are prototype keys that `validations[name]` could find on an ordinary object.
- Forms.Form.Complete: the counter's colour is not reset after a success. This is faithful, since the source only rewrites the text.
- Faq.Click: a button outside any `.faq-list` is modelled as the only item of a group of one, and two questions sharing one answer element are not modelled.
- Forms.Form.SetChecked models the user ticking a box and has no source counterpart.

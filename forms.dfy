/** The contact and the adoption form: marking every governed control after
    validation, re-validating one control when it loses focus, the live
    counter, and the submit handler with the outcome of the request as an
    input. Both forms run the same code over different configurations. */
module Forms {
  import opened Wrappers
  import opened Text
  import opened Rules
  import opened CharCounter

  /** `input.type === 'checkbox'`, or any other control. */
  datatype Kind = TextLike | Checkbox

  /** A named control of a form and the page state the script touches:
      its current and markup-default value and checked state, whether it
      carries the `form-input` class, its `has-error` and `is-valid` classes,
      and the text of its error element (`None`: the page has no such
      element). */
  datatype Control = Control(
    kind: Kind,
    value: string, checked: bool,
    defaultValue: string, defaultChecked: bool,
    formInput: bool,
    hasError: bool, isValid: bool,
    errorText: Option<string>)

  datatype StatusKind = SuccessStatus | ErrorStatus

  /** The status element: `hidden`, the `form-status--<kind>` class last set
      by the script (`None`: still the markup's class) and its text. */
  datatype Banner = Banner(hidden: bool, kind: Option<StatusKind>, text: string)

  /** How the request of a valid submission settles: `fetch` resolved with an
      ok status, or it was rejected or answered with another status. */
  datatype Outcome = Delivered | Failed

  /** Everything in which the two forms differ. */
  datatype FormConfig = FormConfig(
    rules: RuleTable,
    successMessage: string, failureMessage: string,
    counterField: string, counterLimit: nat, counterThreshold: nat)

  const ContactForm: FormConfig := FormConfig(
    ContactRules,
    "✅ Mensagem enviada com sucesso! Responderemos em até 2 dias úteis.",
    "❌ Não foi possível enviar sua mensagem. Tente novamente ou entre em contato pelo WhatsApp.",
    "mensagem", 1000, 900)

  const AdoptForm: FormConfig := FormConfig(
    AdoptRules,
    "🐾 Interesse registrado com sucesso! Nossa equipe entrará em contato em breve.",
    "❌ Não foi possível enviar. Tente novamente ou entre em contato pelo WhatsApp.",
    "mensagem", 800, 720)

  // ---------------------------------------------------------------------------
  // Specification functions.

  /** The value the form-level validation passes: "" for a checkbox, the
      submitted value otherwise. */
  function FormValue(c: Control): (v: string)
    ensures c.kind == Checkbox ==> v == ""
    ensures c.kind != Checkbox ==> v == c.value
  {
    if c.kind == Checkbox then "" else c.value
  }

  /** The `checked` flag the form-level validation passes: the box's state for
      a checkbox, `true` otherwise. */
  function FormChecked(c: Control): (b: bool)
    ensures b <==> c.kind != Checkbox || c.checked
  {
    if c.kind == Checkbox then c.checked else true
  }

  /** The message the form-level validation computes for control `name`. */
  function ControlError(rules: RuleTable, name: string, c: Control): string {
    ValidateField(rules.rules, name, FormValue(c), FormChecked(c))
  }

  /** `setFieldState`: the classes and the error text for message `err`. */
  function Mark(c: Control, err: string): (m: Control)
    ensures m.hasError != m.isValid && (m.hasError <==> err != "")
    ensures m.errorText.Some? <==> c.errorText.Some?
    ensures m.errorText.Some? ==> m.errorText.value == err
    ensures m.value == c.value && m.checked == c.checked && m.kind == c.kind
  {
    c.(hasError := err != "", isValid := err == "",
       errorText := if c.errorText.Some? then Some(err) else None)
  }

  /** The controls after the form-level validation has marked them. */
  function MarkAll(rules: RuleTable, cs: map<string, Control>): (ms: map<string, Control>)
    ensures forall n :: n in ms <==> n in cs
    ensures forall n :: n in cs && n !in rules.rules ==> ms[n] == cs[n]
  {
    map n | n in cs :: if n in rules.rules then Mark(cs[n], ControlError(rules, n, cs[n])) else cs[n]
  }

  /** The controls after marking only the names in `names`. */
  function MarkNames(rules: RuleTable, names: seq<string>, cs: map<string, Control>): map<string, Control> {
    map n | n in cs :: if n in names then Mark(cs[n], ControlError(rules, n, cs[n])) else cs[n]
  }

  /** The controls after the marking loop has handled the first `i` keys,
      one key at a time. */
  function MarkPrefix(rules: RuleTable, keys: seq<string>, i: nat, cs: map<string, Control>): map<string, Control>
    requires i <= |keys|
  {
    if i == 0 then cs
    else
      var prev, name := MarkPrefix(rules, keys, i - 1, cs), keys[i - 1];
      if name in prev then prev[name := Mark(prev[name], ControlError(rules, name, prev[name]))] else prev
  }

  /** The verdict of the marking loop after the first `i` keys. */
  predicate PrefixPasses(rules: RuleTable, keys: seq<string>, i: nat, cs: map<string, Control>)
    requires i <= |keys|
  {
    i == 0
    || (PrefixPasses(rules, keys, i - 1, cs)
        && var prev, name := MarkPrefix(rules, keys, i - 1, cs), keys[i - 1];
           name in prev ==> ControlError(rules, name, prev[name]) == "")
  }

  /** Every control present that is named by one of the first `i` keys passes. */
  predicate KeysPass(rules: RuleTable, keys: seq<string>, i: nat, cs: map<string, Control>)
    requires i <= |keys|
  {
    forall j :: 0 <= j < i && keys[j] in cs ==> ControlError(rules, keys[j], cs[keys[j]]) == ""
  }

  /** The verdict of the form-level validation. */
  predicate FormIsValid(rules: RuleTable, cs: map<string, Control>) {
    forall n :: n in cs && n in rules.rules ==> ControlError(rules, n, cs[n]) == ""
  }

  /** The first control in document order carrying `has-error`: what
      `querySelector('.has-error')` finds. */
  function FirstWithError(order: seq<string>, cs: map<string, Control>): (r: Option<string>)
    ensures r.None? <==> forall i :: 0 <= i < |order| && order[i] in cs ==> !cs[order[i]].hasError
    ensures r.Some? ==>
      exists i :: 0 <= i < |order| && order[i] == r.value
        && r.value in cs && cs[r.value].hasError
        && forall j :: 0 <= j < i && order[j] in cs ==> !cs[order[j]].hasError
  {
    if order == [] then None
    else if order[0] in cs && cs[order[0]].hasError then Some(order[0])
    else
      var r := FirstWithError(order[1..], cs);
      assert forall i :: 0 < i < |order| ==> order[i] == order[1..][i - 1];
      if r.Some? then
        var i :| 0 <= i < |order| - 1 && order[1..][i] == r.value && r.value in cs && cs[r.value].hasError
          && forall j :: 0 <= j < i && order[1..][j] in cs ==> !cs[order[1..][j]].hasError;
        assert order[i + 1] == r.value;
        r
      else r
  }

  /** `form.reset()` followed by removing `is-valid` and `has-error` from every
      `form-input`: values and checked states go back to the markup's; the
      error texts stay as they were. */
  function ResetControl(c: Control): (r: Control)
    ensures r.formInput ==> !r.hasError && !r.isValid
    ensures r.value == r.defaultValue == c.defaultValue && r.checked == r.defaultChecked == c.defaultChecked
    ensures r.errorText == c.errorText && r.kind == c.kind
  {
    c.(value := c.defaultValue, checked := c.defaultChecked,
       hasError := if c.formInput then false else c.hasError,
       isValid := if c.formInput then false else c.isValid)
  }

  function ResetAll(cs: map<string, Control>): (rs: map<string, Control>)
    ensures forall n :: n in rs <==> n in cs
  {
    map n | n in cs :: ResetControl(cs[n])
  }

  /** `showStatus(kind, message)`; nothing when the page has no status element. */
  function Show(b: Option<Banner>, kind: StatusKind, message: string): (r: Option<Banner>)
    ensures r.Some? <==> b.Some?
    ensures r.Some? ==> !r.value.hidden && r.value.kind == Some(kind) && r.value.text == message
  {
    if b.Some? then Some(Banner(false, Some(kind), message)) else None
  }

  /** `hideStatus()`. */
  function Hide(b: Option<Banner>): (r: Option<Banner>)
    ensures r.Some? <==> b.Some?
    ensures r.Some? ==> r.value.hidden && r.value.text == "" && r.value.kind == b.value.kind
  {
    if b.Some? then Some(b.value.(hidden := true, text := "")) else None
  }

  /** The counter after a successful submission: only its text is reset. */
  function ResetCounter(k: Option<Counter>, limit: nat): (r: Option<Counter>)
    ensures r.Some? <==> k.Some?
    ensures r.Some? ==> ShownCount(r.value.text) == 0 && r.value.color == k.value.color
  {
    if k.Some? then Some(k.value.(text := CounterText(0, limit))) else None
  }

  // ---------------------------------------------------------------------------
  // Properties of the specification.

  /** One more step of the marking loop. */
  lemma MarkNamesStep(rules: RuleTable, keys: seq<string>, i: nat, cs: map<string, Control>)
    requires i < |keys| && forall j :: 0 <= j < i ==> keys[j] != keys[i]
    ensures keys[..i + 1] == keys[..i] + [keys[i]]
    ensures var name, before := keys[i], MarkNames(rules, keys[..i], cs);
      (name in before <==> name in cs) && (name in cs ==> before[name] == cs[name])
    ensures var name, before, after := keys[i], MarkNames(rules, keys[..i], cs), MarkNames(rules, keys[..i + 1], cs);
      after == if name in before then before[name := Mark(before[name], ControlError(rules, name, before[name]))] else before
  {
    assert keys[..i + 1] == keys[..i] + [keys[i]];
  }

  /** Key by key, the loop marks exactly the names it has visited. */
  lemma {:induction false} MarkPrefixIsMarkNames(rules: RuleTable, keys: seq<string>, i: nat, cs: map<string, Control>)
    requires i <= |keys| && Distinct(keys)
    ensures MarkPrefix(rules, keys, i, cs) == MarkNames(rules, keys[..i], cs)
  {
    if i == 0 {
      assert keys[..0] == [];
    } else {
      MarkPrefixIsMarkNames(rules, keys, i - 1, cs);
      MarkNamesStep(rules, keys, i - 1, cs);
    }
  }

  /** Key by key, the loop's verdict is that the controls it has visited pass,
      judged on their values before marking. */
  lemma {:induction false} PrefixPassesIffKeysPass(rules: RuleTable, keys: seq<string>, i: nat, cs: map<string, Control>)
    requires i <= |keys| && Distinct(keys)
    ensures PrefixPasses(rules, keys, i, cs) == KeysPass(rules, keys, i, cs)
  {
    if i > 0 {
      PrefixPassesIffKeysPass(rules, keys, i - 1, cs);
      MarkPrefixUntouched(rules, keys, i - 1, cs, keys[i - 1]);
      assert KeysPass(rules, keys, i, cs)
        == (KeysPass(rules, keys, i - 1, cs)
            && (keys[i - 1] in cs ==> ControlError(rules, keys[i - 1], cs[keys[i - 1]]) == ""));
    }
  }

  /** A control the loop has not reached yet is still as it was. */
  lemma {:induction false} MarkPrefixUntouched(rules: RuleTable, keys: seq<string>, i: nat, cs: map<string, Control>, n: string)
    requires i <= |keys| && forall j :: 0 <= j < i ==> keys[j] != n
    ensures n in MarkPrefix(rules, keys, i, cs) <==> n in cs
    ensures n in cs ==> MarkPrefix(rules, keys, i, cs)[n] == cs[n]
  {
    if i > 0 {
      MarkPrefixUntouched(rules, keys, i - 1, cs, n);
    }
  }

  /** Marking the names of a well-formed table is marking the whole table. */
  lemma MarkNamesCoversTable(rules: RuleTable, cs: map<string, Control>)
    requires rules.Valid()
    ensures MarkNames(rules, rules.keys, cs) == MarkAll(rules, cs)
    ensures KeysPass(rules, rules.keys, |rules.keys|, cs) == FormIsValid(rules, cs)
  {
    if !FormIsValid(rules, cs) {
      var n :| n in cs && n in rules.rules && ControlError(rules, n, cs[n]) != "";
      var j :| 0 <= j < |rules.keys| && rules.keys[j] == n;
    }
  }

  /** Marking leaves exactly one of `has-error` / `is-valid` on every governed
      control present, puts the message (or "") in its error element, keeps
      what the user entered, skips absent names and leaves ungoverned
      controls alone. */
  lemma MarkAllMarksEachGovernedControl(rules: RuleTable, cs: map<string, Control>, n: string)
    ensures n in MarkAll(rules, cs) <==> n in cs
    ensures n in cs && n !in rules.rules ==> MarkAll(rules, cs)[n] == cs[n]
    ensures n in cs && n in rules.rules ==>
      var m, err := MarkAll(rules, cs)[n], ControlError(rules, n, cs[n]);
      m.hasError != m.isValid && (m.hasError <==> err != "")
      && (m.errorText.Some? <==> cs[n].errorText.Some?)
      && (m.errorText.Some? ==> m.errorText.value == err)
      && m.value == cs[n].value && m.checked == cs[n].checked && m.kind == cs[n].kind
  {
  }

  /** The form is valid exactly when, after marking, no governed control
      carries `has-error`. */
  lemma ValidIffNoErrorMarks(rules: RuleTable, cs: map<string, Control>)
    ensures FormIsValid(rules, cs)
      <==> forall n :: n in MarkAll(rules, cs) && n in rules.rules ==> !MarkAll(rules, cs)[n].hasError
  {
    var m := MarkAll(rules, cs);
    if !FormIsValid(rules, cs) {
      var n :| n in cs && n in rules.rules && ControlError(rules, n, cs[n]) != "";
      assert m[n].hasError;
    }
  }

  /** Validating again changes nothing: marking keeps the values it reads. */
  lemma MarkAllIdempotent(rules: RuleTable, cs: map<string, Control>)
    ensures MarkAll(rules, MarkAll(rules, cs)) == MarkAll(rules, cs)
    ensures FormIsValid(rules, MarkAll(rules, cs)) == FormIsValid(rules, cs)
  {
    var m := MarkAll(rules, cs);
    assert forall n :: n in m && n in rules.rules ==> ControlError(rules, n, m[n]) == ControlError(rules, n, cs[n]);
  }

  /** A rejected form always has a control to focus. It is the first
      control in document order whose message is not "", unless some control
      without a rule carries a stale `has-error` from the markup, which
      `querySelector('.has-error')` finds just as well. */
  lemma InvalidFormHasFocusTarget(rules: RuleTable, order: seq<string>, cs: map<string, Control>)
    requires forall n :: n in cs <==> n in order
    requires !FormIsValid(rules, cs)
    ensures var f := FirstWithError(order, MarkAll(rules, cs));
      f.Some? && f.value in cs
      && ((forall n :: n in cs && n !in rules.rules ==> !cs[n].hasError) ==>
            f.value in rules.rules && ControlError(rules, f.value, cs[f.value]) != "")
  {
    var m := MarkAll(rules, cs);
    var n :| n in cs && n in rules.rules && ControlError(rules, n, cs[n]) != "";
    var i :| 0 <= i < |order| && order[i] == n;
    assert m[order[i]].hasError;
    var f := FirstWithError(order, m);
    assert f.Some?;
    if f.value !in rules.rules {
      assert m[f.value] == cs[f.value];
    }
  }

  /** Where focus-out and submit validate a control alike: always, except for
      a control named lgpd that is not a checkbox (focus-out passes its
      `checked` property, submit passes `true`). */
  lemma FocusOutAgreesWithSubmit(rules: RuleTable, name: string, c: Control)
    requires name != "lgpd" || c.kind == Checkbox
    ensures ValidateField(rules.rules, name, FormValue(c), c.checked) == ControlError(rules, name, c)
  {
  }

  /** After a rejected submit, `firstError.focus()` fires focus-out on the
      control that had focus (a field, when Enter submitted the form), and the
      next move away fires it on `firstError`. Either re-validates a control
      that was just marked; for every control the two validations treat alike,
      that changes nothing. */
  lemma RefocusKeepsMarks(rules: RuleTable, cs: map<string, Control>, name: string)
    requires name in cs && name in rules.rules
    requires name != "lgpd" || cs[name].kind == Checkbox
    ensures var ms := MarkAll(rules, cs);
      Mark(ms[name], ValidateField(rules.rules, name, FormValue(ms[name]), ms[name].checked)) == ms[name]
  {
    var ms := MarkAll(rules, cs);
    FocusOutAgreesWithSubmit(rules, name, ms[name]);
    assert ControlError(rules, name, ms[name]) == ControlError(rules, name, cs[name]);
  }

  /** Where the consent control is a checkbox, whether ticked or not, neither
      form ever passes validation, so no request is ever made. */
  lemma ConsentBoxBlocksSubmission(rules: RuleTable, cs: map<string, Control>)
    requires rules == ContactRules || rules == AdoptRules
    requires "lgpd" in cs && cs["lgpd"].kind == Checkbox
    ensures !FormIsValid(rules, cs)
    ensures MarkAll(rules, cs)["lgpd"].hasError
  {
    ConsentCheckboxNeverValidates(rules.rules, cs["lgpd"].checked);
  }

  /** A successful submission clears every `form-input`'s marks and restores
      every control's default value and checked state. */
  lemma ResetAllClearsMarks(cs: map<string, Control>, n: string)
    requires n in cs
    ensures n in ResetAll(cs)
    ensures var r := ResetAll(cs)[n];
      r.value == cs[n].defaultValue && r.checked == cs[n].defaultChecked
      && (cs[n].formInput ==> !r.hasError && !r.isValid)
      && r.errorText == cs[n].errorText && r.kind == cs[n].kind
  {
  }

  /** The configurations carry the rule tables, limits and texts of the two
      forms, and their tables are well formed. */
  lemma ConfigurationsValid()
    ensures ContactForm.rules.Valid() && AdoptForm.rules.Valid()
    ensures CounterText(0, ContactForm.counterLimit) == "0 / 1000"
    ensures CounterText(0, AdoptForm.counterLimit) == "0 / 800"
  {
    RuleTablesValid();
    ResetTexts();
  }

  // ---------------------------------------------------------------------------
  // The form on the page.

  class Form {
    const config: FormConfig
    /** The names of the controls, in document order. */
    const order: seq<string>
    var controls: map<string, Control>
    var status: Option<Banner>
    const hasSubmitButton: bool
    /** `disabled`, the `is-loading` class and `aria-busy` of the submit
        button, which `setLoading` always sets together. */
    var busy: bool
    /** The counter element (`None`: the page has none). */
    var counter: Option<Counter>

    ghost predicate Valid()
      reads this
    {
      config.rules.Valid() && Distinct(order)
      && (forall n :: n in controls <==> n in order)
      && (!hasSubmitButton ==> !busy)
    }

    constructor (config: FormConfig, order: seq<string>, controls: map<string, Control>,
                 status: Option<Banner>, hasSubmitButton: bool, counter: Option<Counter>)
      requires config.rules.Valid() && Distinct(order)
      requires forall n :: n in controls <==> n in order
      ensures Valid()
      ensures this.config == config && this.order == order && this.controls == controls
      ensures this.status == status && this.hasSubmitButton == hasSubmitButton
      ensures this.counter == counter && !busy
    {
      this.config := config;
      this.order := order;
      this.controls := controls;
      this.status := status;
      this.hasSubmitButton := hasSubmitButton;
      this.counter := counter;
      this.busy := false;
    }

    /** `validateForm`: validate and mark every governed control present, in
        the order of the rule table, without stopping at the first error. */
    method ValidateForm() returns (ok: bool)
      requires Valid()
      modifies this`controls
      ensures Valid()
      ensures controls == MarkAll(config.rules, old(controls))
      ensures ok == FormIsValid(config.rules, old(controls))
    {
      ghost var start := controls;
      var rules := config.rules;
      assert rules.Valid();
      var keys := rules.keys;
      ok := true;
      var i := 0;
      while i < |keys|
        invariant 0 <= i <= |keys|
        invariant controls == MarkPrefix(rules, keys, i, start)
        invariant ok == PrefixPasses(rules, keys, i, start)
      {
        var name := keys[i];
        if name in controls {
          var input := controls[name];
          var err := ValidateField(rules.rules, name, FormValue(input), FormChecked(input));
          controls := controls[name := Mark(input, err)];
          if err != "" {
            ok := false;
          }
        }
        i := i + 1;
      }
      assert keys[..i] == keys;
      MarkPrefixIsMarkNames(rules, keys, i, start);
      PrefixPassesIffKeysPass(rules, keys, i, start);
      MarkNamesCoversTable(rules, start);
    }

    /** The `focusout` listener: re-validate and mark the control that lost
        focus, if it is a named, governed control. */
    method FocusOut(name: string)
      requires Valid()
      modifies this`controls
      ensures Valid()
      ensures controls ==
        if name != "" && name in config.rules.rules && name in old(controls) then
          var c := old(controls)[name];
          old(controls)[name := Mark(c, ValidateField(config.rules.rules, name, FormValue(c), c.checked))]
        else old(controls)
    {
      if name != "" && name in config.rules.rules && name in controls {
        var input := controls[name];
        var err := ValidateField(config.rules.rules, name, FormValue(input), input.checked);
        controls := controls[name := Mark(input, err)];
      }
    }

    /** The user types into control `name`; on the message textarea the
        `input` listener then updates the counter, when the page has one. */
    method EditValue(name: string, value: string)
      requires Valid()
      modifies this`controls, this`counter
      ensures Valid()
      ensures controls == if name in old(controls) then old(controls)[name := old(controls)[name].(value := value)] else old(controls)
      ensures counter ==
        if name in old(controls) && name == config.counterField && old(counter).Some? then
          Some(Render(value, config.counterLimit, config.counterThreshold))
        else old(counter)
    {
      if name in controls {
        controls := controls[name := controls[name].(value := value)];
        if name == config.counterField && counter.Some? {
          counter := Some(Render(value, config.counterLimit, config.counterThreshold));
        }
      }
    }

    /** The user ticks or unticks control `name`. */
    method SetChecked(name: string, checked: bool)
      requires Valid()
      modifies this`controls
      ensures Valid()
      ensures controls == if name in old(controls) then old(controls)[name := old(controls)[name].(checked := checked)] else old(controls)
    {
      if name in controls {
        controls := controls[name := controls[name].(checked := checked)];
      }
    }

    /** The submit handler up to the request: hide the status, validate; on
        failure pick the first control with an error for focus and stop; on
        success enter the loading state and report that the request goes out. */
    method Submit() returns (requested: bool, focus: Option<string>)
      requires Valid()
      modifies this`controls, this`status, this`busy
      ensures Valid()
      ensures status == Hide(old(status))
      ensures controls == MarkAll(config.rules, old(controls))
      ensures requested == FormIsValid(config.rules, old(controls))
      ensures requested ==> busy == hasSubmitButton && focus == None
      ensures !requested ==> busy == old(busy) && focus == FirstWithError(order, controls)
    {
      status := Hide(status);
      var ok := ValidateForm();
      if !ok {
        focus := FirstWithError(order, controls);
        requested := false;
        return;
      }
      if hasSubmitButton {
        busy := true;
      }
      requested, focus := true, None;
    }

    /** The rest of the submit handler, once the request has settled: on
        success show the success status, reset the form, clear the marks and
        the counter text; on failure show the error status and keep every
        value; in both cases leave the loading state. */
    method Complete(outcome: Outcome)
      requires Valid()
      modifies this`controls, this`status, this`busy, this`counter
      ensures Valid()
      ensures !busy
      ensures outcome == Delivered ==>
        status == Show(old(status), SuccessStatus, config.successMessage)
        && controls == ResetAll(old(controls))
        && counter == ResetCounter(old(counter), config.counterLimit)
      ensures outcome == Failed ==>
        status == Show(old(status), ErrorStatus, config.failureMessage)
        && controls == old(controls) && counter == old(counter)
    {
      match outcome {
        case Delivered =>
          status := Show(status, SuccessStatus, config.successMessage);
          controls := ResetAll(controls);
          counter := ResetCounter(counter, config.counterLimit);
        case Failed =>
          status := Show(status, ErrorStatus, config.failureMessage);
      }
      if hasSubmitButton {
        busy := false;
      }
    }

    /** The whole submit handler for a request that settles with `outcome`. */
    method HandleSubmit(outcome: Outcome) returns (requested: bool, focus: Option<string>)
      requires Valid()
      modifies this`controls, this`status, this`busy, this`counter
      ensures Valid()
      ensures requested == FormIsValid(config.rules, old(controls))
      ensures !requested ==>
        controls == MarkAll(config.rules, old(controls)) && status == Hide(old(status))
        && busy == old(busy) && counter == old(counter)
        && focus.Some? && focus == FirstWithError(order, controls)
      ensures requested ==> !busy && focus == None
      ensures requested && outcome == Delivered ==>
        controls == ResetAll(MarkAll(config.rules, old(controls)))
        && status == Show(old(status), SuccessStatus, config.successMessage)
        && counter == ResetCounter(old(counter), config.counterLimit)
      ensures requested && outcome == Failed ==>
        controls == MarkAll(config.rules, old(controls))
        && status == Show(old(status), ErrorStatus, config.failureMessage)
        && counter == old(counter)
    {
      ghost var before := controls;
      requested, focus := Submit();
      if requested {
        Complete(outcome);
      } else {
        InvalidFormHasFocusTarget(config.rules, order, before);
      }
    }
  }
}

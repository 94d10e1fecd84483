/** The per-field rules of the contact and the adoption forms and the field
    validator that both forms use (`validateField` and `validateAdoptField`
    have the same body and differ only in the table they read, so one
    function parameterised by the table models both). */
module Rules {
  import opened Wrappers
  import opened Text
  import opened Email

  /** The only pattern any rule carries is the e-mail pattern. */
  datatype Pattern = EmailPattern

  /** A field rule; `caption` is the source's `label`. `minLength == 0` stands for "no minimum": the source checks
      `rule.minLength && ...`, for which an absent minimum and 0 are alike. */
  datatype Rule = Rule(required: bool, minLength: nat, pattern: Option<Pattern>, caption: string)

  /** No name occurs twice in `s`. */
  ghost predicate Distinct(s: seq<string>) {
    forall i, j :: 0 <= i < j < |s| ==> s[i] != s[j]
  }

  /** A rule table: the rules by field name, and the order of the keys that
      `Object.keys` yields (the order of the object literal). */
  datatype RuleTable = RuleTable(keys: seq<string>, rules: map<string, Rule>) {
    ghost predicate Valid() {
      Distinct(keys) && (forall n :: n in rules <==> n in keys)
    }
  }

  function Required(caption: string): Rule { Rule(true, 0, None, caption) }
  function RequiredMin(n: nat, caption: string): Rule { Rule(true, n, None, caption) }
  const EmailRule: Rule := Rule(true, 0, Some(EmailPattern), "E-mail")
  const ConsentRule: Rule := Required("Política de Privacidade")

  /** `validations`, the rules of the contact form. */
  const ContactRules: RuleTable := RuleTable(
    ["nome", "sobrenome", "email", "assunto", "mensagem", "lgpd"],
    map[
      "nome" := RequiredMin(2, "Nome"),
      "sobrenome" := RequiredMin(2, "Sobrenome"),
      "email" := EmailRule,
      "assunto" := Required("Assunto"),
      "mensagem" := RequiredMin(10, "Mensagem"),
      "lgpd" := ConsentRule])

  /** `adoptValidations`, the rules of the adoption form. */
  const AdoptRules: RuleTable := RuleTable(
    ["nome", "sobrenome", "email", "telefone", "cidade", "moradia", "especie", "mensagem", "lgpd"],
    map[
      "nome" := RequiredMin(2, "Nome"),
      "sobrenome" := RequiredMin(2, "Sobrenome"),
      "email" := EmailRule,
      "telefone" := RequiredMin(8, "WhatsApp"),
      "cidade" := RequiredMin(3, "Cidade / Estado"),
      "moradia" := Required("Tipo de moradia"),
      "especie" := Required("Tipo de pet"),
      "mensagem" := RequiredMin(15, "Motivação para adotar"),
      "lgpd" := ConsentRule])

  const ConsentMessage: string := "Você precisa aceitar a Política de Privacidade."
  const EmailMessage: string := "Informe um e-mail válido."

  function RequiredMessage(caption: string): string {
    caption + " é obrigatório."
  }

  function MinLengthMessage(caption: string, n: nat): string {
    caption + " deve ter no mínimo " + NatToString(n) + " caracteres."
  }

  /** A value the required check rejects: empty, only white space, or the
      literal text `null`. */
  predicate IsMissing(value: string) {
    value == "" || Trim(value) == "" || value == "null"
  }

  predicate Matches(p: Pattern, s: string) {
    match p
    case EmailPattern => IsEmailAddress(s)
  }

  /** The validator: the first failing check's message, or "" when the name
      has no rule or every check passes. */
  function ValidateField(rules: map<string, Rule>, name: string, value: string, checked: bool): (r: string)
    ensures name !in rules ==> r == ""
    ensures name in rules && !rules[name].required && rules[name].minLength == 0 && rules[name].pattern.None? ==> r == ""
    ensures r != "" ==>
      name in rules
      && (r == ConsentMessage || r == RequiredMessage(rules[name].caption)
          || r == MinLengthMessage(rules[name].caption, rules[name].minLength) || r == EmailMessage)
  {
    if name !in rules then ""
    else
      var rule := rules[name];
      if rule.required && name == "lgpd" && !checked then ConsentMessage
      else if rule.required && IsMissing(value) then RequiredMessage(rule.caption)
      else if rule.minLength > 0 && Utf16Length(Trim(value)) < rule.minLength then
        MinLengthMessage(rule.caption, rule.minLength)
      else if rule.pattern.Some? && !Matches(rule.pattern.value, Trim(value)) then EmailMessage
      else ""
  }

  // ---------------------------------------------------------------------------
  // The checks one by one, as an independent reference for the validator.

  datatype Check = Consent | Presence | Length | Format

  /** Whether check `c` of `rule` rejects the input, regardless of the others,
      stated without the validator's helpers: presence through white space
      rather than `trim()`, and the format through the regular expression. */
  ghost predicate Fails(rule: Rule, name: string, value: string, checked: bool, c: Check) {
    match c
    case Consent => rule.required && name == "lgpd" && !checked
    case Presence => rule.required && (value == "" || AllWhitespace(value) || value == "null")
    case Length => 0 < rule.minLength && Utf16Length(Trim(value)) < rule.minLength
    case Format => rule.pattern.Some? && !MatchesEmailPattern(Trim(value))
  }

  function MessageFor(rule: Rule, c: Check): (msg: string)
    ensures msg != ""
  {
    match c
    case Consent => ConsentMessage
    case Presence => RequiredMessage(rule.caption)
    case Length => MinLengthMessage(rule.caption, rule.minLength)
    case Format => EmailMessage
  }

  /** A name without a rule always passes. */
  lemma UnknownFieldPasses(rules: map<string, Rule>, name: string, value: string, checked: bool)
    requires name !in rules
    ensures ValidateField(rules, name, value, checked) == ""
  {
  }

  /** The validator reports the message of the first failing check in the
      order consent, presence, length, format, and only that one; it reports
      "" exactly when no check fails. */
  lemma ValidateFieldReportsFirstFailure(rules: map<string, Rule>, name: string, value: string, checked: bool)
    requires name in rules
    ensures var rule, r := rules[name], ValidateField(rules, name, value, checked);
      var consent, presence, length, format :=
        Fails(rule, name, value, checked, Consent), Fails(rule, name, value, checked, Presence),
        Fails(rule, name, value, checked, Length), Fails(rule, name, value, checked, Format);
      (consent ==> r == MessageFor(rule, Consent))
      && (!consent && presence ==> r == MessageFor(rule, Presence))
      && (!consent && !presence && length ==> r == MessageFor(rule, Length))
      && (!consent && !presence && !length && format ==> r == MessageFor(rule, Format))
      && (r == "" <==> !consent && !presence && !length && !format)
  {
    TrimEmptyIffAllWhitespace(value);
    EmailCheckMatchesPattern(Trim(value));
  }

  /** A required field whose value is empty, white space only or the text
      `null` gets the "is required" message, unless it is the unchecked
      consent box, whose message comes first. */
  lemma MissingValueIsRequired(rules: map<string, Rule>, name: string, value: string, checked: bool)
    requires name in rules && rules[name].required
    requires value == "" || AllWhitespace(value) || value == "null"
    ensures ValidateField(rules, name, value, checked)
      == if name == "lgpd" && !checked then ConsentMessage else RequiredMessage(rules[name].caption)
  {
    TrimEmptyIffAllWhitespace(value);
  }

  /** A field with a minimum length and no pattern, past the earlier checks,
      passes exactly when its trimmed value has at least that many UTF-16
      code units, and otherwise gets the minimum-length message. */
  lemma MinLengthBoundary(rules: map<string, Rule>, name: string, value: string, checked: bool)
    requires name in rules && rules[name].minLength > 0 && rules[name].pattern.None?
    requires !(rules[name].required && (IsMissing(value) || (name == "lgpd" && !checked)))
    ensures var rule := rules[name];
      ValidateField(rules, name, value, checked)
        == if Utf16Length(Trim(value)) < rule.minLength then MinLengthMessage(rule.caption, rule.minLength) else ""
  {
  }

  // ---------------------------------------------------------------------------
  // The two tables.

  lemma RuleTablesValid()
    ensures ContactRules.Valid() && AdoptRules.Valid()
  {
    ContactRulesValid();
    AdoptRulesValid();
  }

  lemma ContactRulesValid()
    ensures ContactRules.Valid()
  {
    var keys, rules := ContactRules.keys, ContactRules.rules;
    assert Distinct(keys);
    assert forall n :: n in rules <==> n in keys;
  }

  lemma AdoptRulesValid()
    ensures AdoptRules.Valid()
  {
    var keys, rules := AdoptRules.keys, AdoptRules.rules;
    assert Distinct(keys);
    assert forall n :: n in rules <==> n in keys;
  }

  /** Names and minimum lengths of the contact form: nome and sobrenome 2,
      mensagem 10; a trimmed value one short of the minimum fails, one of
      exactly the minimum passes. */
  lemma ContactMinLengths(name: string, value: string)
    requires name == "nome" || name == "sobrenome" || name == "mensagem"
    requires !IsMissing(value)
    ensures ContactRules.rules[name].minLength == if name == "mensagem" then 10 else 2
    ensures ValidateField(ContactRules.rules, name, value, true) == ""
      <==> Utf16Length(Trim(value)) >= ContactRules.rules[name].minLength
  {
    MinLengthBoundary(ContactRules.rules, name, value, true);
  }

  /** The same for the adoption form: nome and sobrenome 2, telefone 8,
      cidade 3, mensagem 15. */
  lemma AdoptMinLengths(name: string, value: string)
    requires name in {"nome", "sobrenome", "telefone", "cidade", "mensagem"}
    requires !IsMissing(value)
    ensures AdoptRules.rules[name].minLength
      == match name
         case "telefone" => 8
         case "cidade" => 3
         case "mensagem" => 15
         case _ => 2
    ensures ValidateField(AdoptRules.rules, name, value, true) == ""
      <==> Utf16Length(Trim(value)) >= AdoptRules.rules[name].minLength
  {
    MinLengthBoundary(AdoptRules.rules, name, value, true);
  }

  /** The two sides of the boundary for the contact form's nome: one
      character fails with the minimum-length message ... */
  lemma NomeTooShortExample()
    ensures ValidateField(ContactRules.rules, "nome", "a", true) == "Nome deve ter no mínimo 2 caracteres."
  {
    assert ContactRules.rules["nome"] == RequiredMin(2, "Nome");
    TrimOfTrimmed("a");
    assert ValidateField(ContactRules.rules, "nome", "a", true) == MinLengthMessage("Nome", 2);
    NomeMinLengthMessage();
  }

  /** The text of nome's minimum-length message. */
  lemma NomeMinLengthMessage()
    ensures MinLengthMessage("Nome", 2) == "Nome deve ter no mínimo 2 caracteres."
  {
    assert NatToString(2) == "2";
    assert "Nome" + " deve ter no mínimo " == "Nome deve ter no mínimo ";
    assert "Nome deve ter no mínimo " + "2" == "Nome deve ter no mínimo 2";
  }

  /** ... and two characters, once trimmed, pass. */
  lemma NomeLongEnoughExample()
    ensures ValidateField(ContactRules.rules, "nome", " ab ", true) == ""
  {
    assert TrimStart(" ab ") == "ab ";
    assert TrimEnd("ab ") == "ab";
  }

  /** The e-mail field, past the required check, passes exactly when its
      trimmed value matches the e-mail pattern, in both forms. */
  lemma EmailFieldFollowsPattern(rules: map<string, Rule>, value: string, checked: bool)
    requires rules == ContactRules.rules || rules == AdoptRules.rules
    requires !IsMissing(value)
    ensures ValidateField(rules, "email", value, checked)
      == if MatchesEmailPattern(Trim(value)) then "" else EmailMessage
  {
    EmailCheckMatchesPattern(Trim(value));
  }

  /** The two e-mail examples, through the validator. */
  lemma EmailFieldAcceptsExample()
    ensures ValidateField(ContactRules.rules, "email", "a@b.co", true) == ""
  {
    assert Trim("a@b.co") == "a@b.co" by { TrimOfTrimmed("a@b.co"); }
    ExampleAddressMatches();
  }

  lemma EmailFieldRejectsExample()
    ensures ValidateField(ContactRules.rules, "email", "not-an-email", true) == EmailMessage
  {
    assert Trim("not-an-email") == "not-an-email" by { TrimOfTrimmed("not-an-email"); }
    ExampleNonAddressFails();
  }

  /** The consent box as the forms pass it (its value is always ""): unchecked
      it gets the privacy-policy message, checked it still fails the required
      check, so a consent checkbox never validates. */
  lemma ConsentCheckboxNeverValidates(rules: map<string, Rule>, checked: bool)
    requires rules == ContactRules.rules || rules == AdoptRules.rules
    ensures ValidateField(rules, "lgpd", "", checked)
      == if checked then "Política de Privacidade é obrigatório." else ConsentMessage
    ensures ValidateField(rules, "lgpd", "", checked) != ""
  {
  }

  /** On the fields both forms share the two validators agree; on mensagem
      they differ (10 against 15 characters). */
  lemma SharedFieldsAgree(name: string, value: string, checked: bool)
    requires name in {"nome", "sobrenome", "email", "lgpd"}
    ensures ValidateField(ContactRules.rules, name, value, checked)
      == ValidateField(AdoptRules.rules, name, value, checked)
  {
    assert name in ContactRules.rules && name in AdoptRules.rules;
    assert ContactRules.rules[name] == AdoptRules.rules[name];
  }
}

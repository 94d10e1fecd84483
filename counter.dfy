/** The live character counter under the message textarea of each form: the
    text `"<length> / <limit>"` and a warning colour past a threshold. */
module CharCounter {
  import opened Text

  const WarningColor: string := "#e53e3e"
  const MutedColor: string := "var(--clr-text-muted)"

  /** What the counter element shows: its text and its inline colour. */
  datatype Counter = Counter(text: string, color: string)

  /** `${len} / <limit>`: the number it starts with, as a reader takes it, is
      the length. */
  function CounterText(len: nat, limit: nat): (text: string)
    ensures ShownCount(text) == len
  {
    var rest := " / " + NatToString(limit);
    LeadingDigitsOfRendering(len, rest);
    ParseNatToString(len);
    NatToString(len) + rest
  }

  /** The counter after an `input` event on a textarea holding `value`; the
      length is JavaScript's, in UTF-16 code units. */
  function Render(value: string, limit: nat, threshold: nat): (c: Counter)
    ensures c.color == WarningColor <==> Utf16Length(value) > threshold
    ensures c.color == WarningColor || c.color == MutedColor
    ensures ShownCount(c.text) == Utf16Length(value)
  {
    var len := Utf16Length(value);
    Counter(CounterText(len, limit), if len > threshold then WarningColor else MutedColor)
  }

  /** The number a counter text starts with, as a reader takes it. */
  function ShownCount(text: string): nat {
    ParseNat(LeadingDigits(text))
  }

  /** So two different lengths never show the same text. */
  lemma CounterTextInjective(len1: nat, len2: nat, limit: nat)
    requires CounterText(len1, limit) == CounterText(len2, limit)
    ensures len1 == len2
  {
  }

  /** The texts a successful submission writes back. */
  lemma ResetTexts()
    ensures CounterText(0, 1000) == "0 / 1000"
    ensures CounterText(0, 800) == "0 / 800"
  {
    ThousandText();
    EightHundredText();
  }

  lemma ThousandText()
    ensures CounterText(0, 1000) == "0 / 1000"
  {
    assert NatToString(1000) == "1000" by {
      assert NatToString(1) == "1";
      assert NatToString(10) == "10";
      assert NatToString(100) == "100";
    }
    assert NatToString(0) + (" / " + "1000") == "0 / 1000";
  }

  lemma EightHundredText()
    ensures CounterText(0, 800) == "0 / 800"
  {
    assert NatToString(800) == "800" by {
      assert NatToString(8) == "8";
      assert NatToString(80) == "80";
    }
    assert NatToString(0) + (" / " + "800") == "0 / 800";
  }
}

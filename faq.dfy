/** The FAQ accordion: clicking a question of a `.faq-list` group closes every
    other question of the group and toggles the clicked one. */
module Faq {

  /** One question of a group: whether its button's `aria-expanded` reads
      `"true"`, whether the answer element it controls exists, and that
      element's `hidden` flag. */
  datatype Item = Item(expanded: bool, hasBody: bool, hidden: bool)

  /** What the loop does to every other question of the group. */
  function Collapse(it: Item): (r: Item)
    ensures r.hasBody == it.hasBody && !r.expanded
    ensures r.hasBody ==> r.hidden
  {
    it.(expanded := false, hidden := if it.hasBody then true else it.hidden)
  }

  /** What happens to the clicked question, given its state before the click. */
  function Toggle(it: Item): (r: Item)
    ensures r.hasBody == it.hasBody && r.expanded == !it.expanded
    ensures r.hasBody ==> r.hidden == !r.expanded
  {
    it.(expanded := !it.expanded, hidden := if it.hasBody then it.expanded else it.hidden)
  }

  /** The group after a click on question `i`. */
  function AfterClick(items: seq<Item>, i: nat): (r: seq<Item>)
    requires i < |items|
    ensures |r| == |items|
    ensures forall j :: 0 <= j < |r| ==> r[j].hasBody == items[j].hasBody
  {
    seq(|items|, j requires 0 <= j < |items| => if j == i then Toggle(items[i]) else Collapse(items[j]))
  }

  predicate NoneExpanded(items: seq<Item>) {
    forall j :: 0 <= j < |items| ==> !items[j].expanded
  }

  /** Every answer that exists is hidden exactly when its question is closed. */
  predicate BodiesAgree(items: seq<Item>) {
    forall j :: 0 <= j < |items| && items[j].hasBody ==> items[j].hidden == !items[j].expanded
  }

  /** After any click: the group has the same questions, every other question
      is closed with its answer hidden, the clicked one is flipped, at most one
      question is open, and every answer agrees with its question. */
  lemma ClickIsExclusive(items: seq<Item>, i: nat)
    requires i < |items|
    ensures var r := AfterClick(items, i);
      |r| == |items|
      && (forall j :: 0 <= j < |r| ==> r[j].hasBody == items[j].hasBody)
      && (forall j :: 0 <= j < |r| && j != i ==> !r[j].expanded && (r[j].hasBody ==> r[j].hidden))
      && r[i].expanded == !items[i].expanded
      && (r[i].hasBody ==> r[i].hidden == items[i].expanded)
      && (forall j, k :: 0 <= j < |r| && 0 <= k < |r| && r[j].expanded && r[k].expanded ==> j == k)
      && BodiesAgree(r)
  {
  }

  /** Clicking an open question leaves the whole group closed. */
  lemma ClickOnOpenClosesAll(items: seq<Item>, i: nat)
    requires i < |items| && items[i].expanded
    ensures NoneExpanded(AfterClick(items, i))
  {
  }

  /** With question `a` open, a click on `b` closes `a` and opens `b`; a second
      click on `b` closes it without opening anything else. */
  lemma OpenAnotherThenReclick(items: seq<Item>, a: nat, b: nat)
    requires a < |items| && b < |items| && a != b
    requires items[a].expanded && !items[b].expanded
    ensures var r := AfterClick(items, b);
      !r[a].expanded && r[b].expanded && NoneExpanded(AfterClick(r, b))
  {
    ClickOnOpenClosesAll(AfterClick(items, b), b);
  }

  /** The click handler of a question button, over the array of its group. A
      button outside any `.faq-list` behaves as the only item of a group of
      one. */
  method Click(group: array<Item>, i: nat)
    requires i < group.Length
    modifies group
    ensures group[..] == AfterClick(old(group[..]), i)
  {
    var wasOpen := group[i].expanded;
    var j := 0;
    while j < group.Length
      invariant 0 <= j <= group.Length
      invariant forall k :: 0 <= k < j && k != i ==> group[k] == Collapse(old(group[k]))
      invariant forall k :: 0 <= k < group.Length && (j <= k || k == i) ==> group[k] == old(group[k])
    {
      if j != i {
        group[j] := Collapse(group[j]);
      }
      j := j + 1;
    }
    group[i] := group[i].(expanded := !wasOpen, hidden := if group[i].hasBody then wasOpen else group[i].hidden);
  }
}

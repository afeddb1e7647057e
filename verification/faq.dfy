/** The accordion of app/composables/about/useFAQ.ts: the index of the one open answer, or
    -1 when every answer is closed. Clicking a question toggles it. */
module Faq {

  /** The state in which no answer is open. */
  const Closed := -1

  /** toggleFaq(index): the open question closes, any other opens in place of the open one. */
  function Toggle(open: int, index: int): (r: int)
    ensures r == Closed <==> open == index || index == Closed
    ensures r != Closed ==> r == index
  {
    if open == index then Closed else index
  }

  /** The answers shown open in a state: at most one. */
  function OpenSet(open: int): (s: set<int>)
    ensures |s| <= 1
    ensures forall i :: i in s <==> i == open && open != Closed
  {
    if open == Closed then {} else {open}
  }

  /** Toggling a question shows it alone when it was hidden and hides everything when it was
      shown. */
  lemma ToggleShowsOrHides(open: int, index: int)
    requires index != Closed
    ensures OpenSet(Toggle(open, index)) == if index in OpenSet(open) then {} else {index}
  {
  }

  /** Clicking the same question twice: an open question is open again, any other state
      ends with everything closed. */
  lemma ToggleTwice(open: int, index: int)
    requires index != Closed
    ensures Toggle(Toggle(open, index), index) == if open == index then index else Closed
  {
  }

  /** The state after a sequence of clicks, in order. */
  function ToggleAll(open: int, clicks: seq<int>): (r: int)
    ensures |clicks| == 0 ==> r == open
    decreases |clicks|
  {
    if |clicks| == 0 then open else ToggleAll(Toggle(open, clicks[0]), clicks[1..])
  }

  /** After a sequence of clicks the open answer, if any, is the last one clicked. */
  lemma {:induction false} LastClickedIsOpen(open: int, clicks: seq<int>)
    requires |clicks| > 0
    ensures ToggleAll(open, clicks) in {Closed, clicks[|clicks| - 1]}
    decreases |clicks|
  {
    if |clicks| > 1 {
      LastClickedIsOpen(Toggle(open, clicks[0]), clicks[1..]);
      assert clicks[1..][|clicks| - 2] == clicks[|clicks| - 1];
    }
  }

  /** Starting closed, clicking one question n times leaves it open exactly when n is odd. */
  lemma {:induction false} RepeatedClicks(index: int, n: nat)
    requires index != Closed
    ensures ToggleAll(Closed, seq(n, _ => index)) == if n % 2 == 1 then index else Closed
    decreases n
  {
    if n >= 2 {
      var clicks := seq(n, _ => index);
      assert clicks[0] == index && clicks[1..][0] == index;
      assert clicks[1..][1..] == seq(n - 2, _ => index);
      RepeatedClicks(index, n - 2);
    } else if n == 1 {
      assert seq(1, _ => index)[1..] == [];
    }
  }
}

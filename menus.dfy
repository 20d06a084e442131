/** The numbered-menu answer rules shared by every selection prompt of the
    interactive demo: the answer is stripped; the quit/back letter, in either
    case, cancels; a number between 1 and the menu length picks that entry;
    anything else (including what `int()` rejects) asks again. */
module Menus {
  import opened Wrappers
  import opened Strings

  datatype Choice = Cancel | Select(index: nat) | Retry

  /** One answer to a menu of `n` entries. `sentinel` is the cancel letter
      (`'q'` or `'b'`), or `None` for the sample sub-menu, which has none. */
  function ParseChoice(line: string, n: nat, sentinel: Option<char>): (c: Choice)
    ensures c.Select? ==> c.index < n
    ensures c == Cancel ==> sentinel.Some? && LowerIs(Strip(line), sentinel.value)
  {
    var answer := Strip(line);
    if sentinel.Some? && LowerIs(answer, sentinel.value) then Cancel
    else match ParseInt(answer)
      case Some(v) => if 1 <= v <= n then Select(v - 1) else Retry
      case None => Retry
  }

  /** The answer `line` to the numbered menu `items` selects `x`. */
  ghost predicate Picks<T>(items: seq<T>, line: string, sentinel: Option<char>, x: T) {
    var c := ParseChoice(line, |items|, sentinel);
    c.Select? && items[c.index] == x
  }

  /** For a lower-case letter, the answer cancels exactly when it is that
      letter or its capital, after stripping. */
  lemma CancelIff(line: string, n: nat, letter: char)
    requires 'a' <= letter <= 'z'
    ensures ParseChoice(line, n, Some(letter)) == Cancel <==>
      Strip(line) == [letter] || Strip(line) == [(letter as int - 32) as char]
  {
    var answer := Strip(line);
    if |answer| == 1 {
      assert Lower(answer) == [LowerChar(answer[0])];
    }
  }

  /** Typing the shown `k` that the menu prints in front of entry `k - 1`
      selects that entry, whatever the cancel letter is. */
  lemma LabelSelects(k: nat, n: nat, sentinel: Option<char>)
    requires 1 <= k <= n
    requires sentinel.Some? ==> !IsDigit(sentinel.value)
    ensures ParseChoice(NatToString(k), n, sentinel) == Select(k - 1)
  {
    var shown := NatToString(k);
    StripUnchanged(shown);
    ParseIntNatToString(k);
  }

  /** Numbers outside 1..n never select, and neither does the shown 0. */
  lemma OutOfRangeRetries(k: nat, n: nat, sentinel: Option<char>)
    requires k == 0 || k > n
    requires sentinel.Some? ==> !IsDigit(sentinel.value)
    ensures ParseChoice(NatToString(k), n, sentinel) == Retry
  {
    var shown := NatToString(k);
    StripUnchanged(shown);
    ParseIntNatToString(k);
  }

  /** The `while True` re-prompt loop of a menu, run over the operator's
      answers with the menu's answer rule `parse` (a `ParseChoice` instance):
      it stops at the first answer that cancels or selects, having consumed
      `used` answers. When every answer asks again, all of them are consumed
      and the result is `Retry`: the operator's input has ended. */
  method Prompt(lines: seq<string>, parse: string -> Choice) returns (c: Choice, used: nat)
    ensures used <= |lines|
    ensures c == Retry ==> used == |lines|
    ensures c != Retry ==> 0 < used && parse(lines[used - 1]) == c
    ensures forall j :: 0 <= j < used && (j + 1 < used || c == Retry) ==> parse(lines[j]) == Retry
  {
    used := 0;
    c := Retry;
    while used < |lines|
      invariant used <= |lines|
      invariant c == Retry
      invariant forall j :: 0 <= j < used ==> parse(lines[j]) == Retry
    {
      c := parse(lines[used]);
      used := used + 1;
      if c != Retry {
        return;
      }
    }
  }

  /** One numbered menu over `items`: the entry whose shown number the
      operator typed, the cancel sentinel, or the end of input when every
      answer asked again. Earlier answers all asked again. */
  method Choose<T>(items: seq<T>, lines: seq<string>, sentinel: Option<char>) returns (r: Outcome<T>, used: nat)
    ensures used <= |lines|
    ensures r.Chosen? ==> 0 < used
    ensures r.Chosen? ==> exists i :: 0 <= i < |items| && items[i] == r.value && ParseChoice(lines[used - 1], |items|, sentinel) == Select(i)
    ensures r.Chosen? ==> Picks(items, lines[used - 1], sentinel, r.value)
    ensures r == Back ==> 0 < used && sentinel.Some? && LowerIs(Strip(lines[used - 1]), sentinel.value)
    ensures r == EndOfInput ==> used == |lines|
    ensures forall j {:trigger ParseChoice(lines[j], |items|, sentinel)} :: 0 <= j < used && (j + 1 < used || r == EndOfInput) ==>
      ParseChoice(lines[j], |items|, sentinel) == Retry
  {
    var c;
    c, used := Prompt(lines, line => ParseChoice(line, |items|, sentinel));
    if c.Select? {
      ghost var answer := ParseChoice(lines[used - 1], |items|, sentinel);
      assert answer == c;
      r := Chosen(items[c.index]);
    } else if c == Cancel {
      ghost var answer := ParseChoice(lines[used - 1], |items|, sentinel);
      assert answer == c;
      r := Back;
    } else {
      r := EndOfInput;
    }
  }
}

/** `app-input-otp`: a one-time-code entry made of one-character inputs
    over a string `value`. Typing keeps only digits and writes them at the
    cell's position; a paste replaces the whole value; the arrow keys and
    Backspace move the focus between cells. */
module InputOtp {
  import opened Seqs
  import opened Text

  // --------------------------------------------------- strings as arrays

  /** `s.split('')`: one string per character. */
  function Chars(s: string): (r: seq<string>)
    ensures |r| == |s|
    ensures forall i :: 0 <= i < |s| ==> r[i] == [s[i]]
  {
    seq(|s|, i requires 0 <= i < |s| => [s[i]])
  }

  /** `parts.join('')`, holes counting as empty strings. */
  function Concat(parts: seq<string>): string
  {
    if |parts| == 0 then "" else parts[0] + Concat(parts[1..])
  }

  lemma {:induction false} ConcatAppend(a: seq<string>, b: seq<string>)
    ensures Concat(a + b) == Concat(a) + Concat(b)
  {
    if |a| > 0 {
      assert (a + b)[1..] == a[1..] + b;
      ConcatAppend(a[1..], b);
    } else {
      assert a + b == b;
    }
  }

  /** Splitting into characters and joining again gives the string back. */
  lemma {:induction false} ConcatChars(s: string)
    ensures Concat(Chars(s)) == s
  {
    if |s| > 0 {
      assert Chars(s)[1..] == Chars(s[1..]);
      ConcatChars(s[1..]);
    }
  }

  lemma {:induction false} ConcatEmpties(n: nat)
    ensures Concat(seq(n, _ => "")) == ""
  {
    if n > 0 {
      assert seq(n, _ => "")[1..] == seq(n - 1, _ => "");
      ConcatEmpties(n - 1);
    }
  }

  /** `chars[index] = piece` on a JavaScript array: an assignment inside
      the array replaces that element; one past its end grows it, the
      slots in between becoming holes. */
  function Assign(chars: seq<string>, index: nat, piece: string): (r: seq<string>)
    ensures |r| == if index < |chars| then |chars| else index + 1
    ensures r[index] == piece
    ensures forall k :: 0 <= k < |chars| && k != index ==> r[k] == chars[k]
    ensures forall k :: |chars| <= k < index ==> r[k] == ""
  {
    if index < |chars| then chars[index := piece]
    else chars + seq(index - |chars|, _ => "") + [piece]
  }

  /** What the cell write of `#handleInput` does to the value: split into
      characters, assign, join. */
  function WriteCell(value: string, index: nat, piece: string): string
  {
    Concat(Assign(Chars(value), index, piece))
  }

  /** The write in string terms: inside the value the character at `index`
      is replaced by `piece` (removed when it is empty, so later characters
      shift left); at or past the end `piece` is appended, the holes adding
      nothing. */
  lemma WriteCellMeaning(value: string, index: nat, piece: string)
    ensures index < |value| ==> WriteCell(value, index, piece) == value[..index] + piece + value[index + 1..]
    ensures index >= |value| ==> WriteCell(value, index, piece) == value + piece
  {
    var chars := Chars(value);
    if index < |value| {
      var r := chars[index := piece];
      assert r == Chars(value[..index]) + [piece] + Chars(value[index + 1..]);
      ConcatAppend(Chars(value[..index]) + [piece], Chars(value[index + 1..]));
      ConcatAppend(Chars(value[..index]), [piece]);
      ConcatChars(value[..index]);
      ConcatChars(value[index + 1..]);
      assert Concat([piece]) == piece;
    } else {
      var holes := seq(index - |chars|, _ => "");
      ConcatAppend(chars + holes, [piece]);
      ConcatAppend(chars, holes);
      ConcatChars(value);
      ConcatEmpties(index - |chars|);
      assert Concat([piece]) == piece;
    }
  }

  /** A one-digit write inside the value replaces just that digit. */
  lemma WriteOneDigit(value: string, index: nat, piece: string)
    requires index < |value| && |piece| == 1
    ensures var r := WriteCell(value, index, piece);
      |r| == |value| && r[index] == piece[0]
      && forall k :: 0 <= k < |value| && k != index ==> r[k] == value[k]
  {
    WriteCellMeaning(value, index, piece);
  }

  /** Writes of digits keep a digits-only value digits-only. */
  lemma WriteKeepsDigits(value: string, index: nat, piece: string)
    requires AllDigits(value) && AllDigits(piece)
    ensures AllDigits(WriteCell(value, index, piece))
  {
    WriteCellMeaning(value, index, piece);
    var r := WriteCell(value, index, piece);
    if index < |value| {
      assert forall k :: 0 <= k < |r| ==> IsDigit(r[k]) by {
        forall k | 0 <= k < |r| ensures IsDigit(r[k]) {
          if k < index { assert r[k] == value[k]; }
          else if k < index + |piece| { assert r[k] == piece[k - index]; }
          else { assert r[k] == value[k - |piece| + 1]; }
        }
      }
    } else {
      assert forall k :: 0 <= k < |r| ==> IsDigit(r[k]) by {
        forall k | 0 <= k < |r| ensures IsDigit(r[k]) {
          if k < |value| { assert r[k] == value[k]; } else { assert r[k] == piece[k - |value|]; }
        }
      }
    }
  }

  /** The digits a paste keeps: the digits of the pasted text, cut to
      `length`. */
  function PasteDigits(data: string, length: nat): (r: string)
    ensures AllDigits(r)
    ensures |r| == if |DigitsOf(data)| <= length then |DigitsOf(data)| else length
    ensures r == DigitsOf(data)[..|r|]
  {
    var d := DigitsOf(data);
    if |d| <= length then d else d[..length]
  }

  // -------------------------------------------------------------- render

  /** The cells `render` shows: `padEnd(length, '')` pads with the empty
      string, which leaves the value as it is, so there is one cell per
      character of the value up to `length`, and none at all for an empty
      value. */
  function Cells(value: string, length: nat): (r: seq<string>)
    ensures |r| == if |value| < length then |value| else length
    ensures forall i :: 0 <= i < |r| ==> r[i] == [value[i]]
    ensures value == "" ==> r == []
  {
    var digits := Chars(value);
    if |digits| <= length then digits else digits[..length]
  }

  /** The cell the separator is rendered in front of, if any: cell
      `floor(length / 2)`, when the separator is non-empty, `length > 3`
      and that cell is rendered. */
  function SeparatorBefore(value: string, length: nat, separator: string): (r: Option<nat>)
    ensures r.Some? <==> separator != "" && length > 3 && length / 2 < |Cells(value, length)|
    ensures r.Some? ==> r.value == length / 2 && 2 * r.value <= length < 2 * r.value + 2
  {
    var showSeparator := separator != "" && length > 3;
    if showSeparator && length / 2 < |Cells(value, length)| then Some(length / 2) else None
  }

  // ------------------------------------------------------------ component

  class Otp {
    var value: string
    var length: nat
    var separator: string

    constructor ()
      ensures value == "" && length == 6 && separator == ""
    {
      value := "";
      length := 6;
      separator := "";
    }

    /** `#handleInput` on cell `index` whose input now holds `typed`: the
        digits of `typed` are written at `index`; focus moves on only when
        something was written and a cell follows. `changed` is the value of
        the `change` event, sent in both cases. */
    method HandleInput(typed: string, index: nat) returns (focus: Option<nat>, changed: string)
      modifies this`value
      ensures value == WriteCell(old(value), index, DigitsOf(typed))
      ensures focus.Some? <==> DigitsOf(typed) != "" && index + 1 < length
      ensures focus.Some? ==> focus.value == index + 1
      ensures changed == value
    {
      var digits := DigitsOf(typed);
      focus := None;
      if digits != "" {
        var chars := Chars(value);
        chars := Assign(chars, index, digits);
        value := Concat(chars);
        if index < length - 1 {
          focus := Some(index + 1);
        }
      } else {
        var chars := Chars(value);
        chars := Assign(chars, index, "");
        value := Concat(chars);
      }
      changed := value;
    }

    /** `#handleKeydown` on cell `index`; `cellEmpty` tells whether that
        input is empty. Only the focus moves. */
    method HandleKeydown(key: string, cellEmpty: bool, index: nat) returns (preventDefault: bool, focus: Option<nat>)
      ensures key == "Backspace" && cellEmpty && index > 0 ==> !preventDefault && focus == Some(index - 1)
      ensures key == "ArrowLeft" ==> (preventDefault <==> index > 0) && (focus.Some? <==> index > 0)
      ensures key == "ArrowLeft" && index > 0 ==> focus == Some(index - 1)
      ensures key == "ArrowRight" ==> (preventDefault <==> index + 1 < length) && (focus.Some? <==> index + 1 < length)
      ensures key == "ArrowRight" && index + 1 < length ==> focus == Some(index + 1)
      ensures key !in ["ArrowLeft", "ArrowRight"] ==> !preventDefault
      ensures !(key == "Backspace" && cellEmpty && index > 0) && key !in ["ArrowLeft", "ArrowRight"] ==> focus.None?
      ensures index < length && focus.Some? ==> focus.value < length
    {
      preventDefault := false;
      focus := None;
      if key == "Backspace" && cellEmpty && index > 0 {
        focus := Some(index - 1);
      } else if key == "ArrowLeft" && index > 0 {
        preventDefault := true;
        focus := Some(index - 1);
      } else if key == "ArrowRight" && index < length - 1 {
        preventDefault := true;
        focus := Some(index + 1);
      }
    }

    /** `#handlePaste`: the paste is always cancelled; when digits remain
        they become the whole value (the `padEnd` adds nothing), focus
        goes to the cell after them or the last cell, and `change` is sent;
        otherwise nothing changes. */
    method HandlePaste(data: string) returns (focus: Option<nat>, changed: Option<string>)
      modifies this`value
      ensures var p := PasteDigits(data, old(length));
        && (p != "" ==>
              value == p && changed == Some(p) && focus == Some(if |p| < length - 1 then |p| else length - 1))
        && (p == "" ==> value == old(value) && changed.None? && focus.None?)
    {
      var pasteData := PasteDigits(data, length);
      focus := None;
      changed := None;
      if pasteData != "" {
        value := pasteData;
        focus := Some(if |pasteData| < length - 1 then |pasteData| else length - 1);
        changed := Some(value);
      }
    }
  }

  /** Input and paste keep a digits-only value digits-only. */
  lemma DigitsOnly(value: string, index: nat, typed: string, data: string, length: nat)
    requires AllDigits(value)
    ensures AllDigits(WriteCell(value, index, DigitsOf(typed)))
    ensures AllDigits(PasteDigits(data, length))
  {
    WriteKeepsDigits(value, index, DigitsOf(typed));
  }

  /** Clearing a cell inside the value deletes its character, shifting the
      later ones left; typing past the end appends, whatever the index. */
  lemma ClearAndAppend(value: string, index: nat, typed: string)
    ensures index < |value| ==> WriteCell(value, index, "") == value[..index] + value[index + 1..]
    ensures index >= |value| ==> WriteCell(value, index, DigitsOf(typed)) == value + DigitsOf(typed)
  {
    WriteCellMeaning(value, index, "");
    WriteCellMeaning(value, index, DigitsOf(typed));
  }

  /** The cell a paste asks to focus, `min(|digits|, length - 1)`, is below
      `length`. It is the last cell of the new value when the paste fills
      every cell. A shorter paste renders only its own digits, because
      `padEnd` pads with the empty string, so the requested cell is the one
      just past them. */
  lemma PasteFocusTarget(data: string, length: nat)
    requires DigitsOf(data) != "" && length > 0
    ensures var p := PasteDigits(data, length);
      var f := if |p| < length - 1 then |p| else length - 1;
      && p != "" && f < length && |Cells(p, length)| == |p|
      && (|p| == length ==> f == |p| - 1)
      && (|p| < length ==> f == |p|)
  {
  }
}

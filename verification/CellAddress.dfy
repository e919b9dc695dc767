/** Spreadsheet addresses (system-plugins/dsh-office/excel-core.js:45-71): bijective base 26 and its inverse. */
module CellAddress {
  import opened Wrappers
  import opened JsText

  const LETTER_A: CodeUnit := 65
  const DIGIT_0: CodeUnit := 48

  predicate Upper(c: CodeUnit) { 65 <= c <= 90 }
  predicate Letter(c: CodeUnit) { 65 <= c <= 90 || 97 <= c <= 122 }
  predicate Digit(c: CodeUnit) { 48 <= c <= 57 }

  function ToUpper(t: Text): (r: Text)
    ensures |r| == |t|
  {
    seq(|t|, i requires 0 <= i < |t| => if 97 <= t[i] <= 122 then t[i] - 32 else t[i])
  }

  // ---- columns -----------------------------------------------------------------------------

  /** The letters of a column, most significant first. */
  function ColumnName(index: nat): (r: Text)
    ensures r != [] && forall i :: 0 <= i < |r| ==> Upper(r[i])
  {
    (if index < 26 then [] else ColumnName(index / 26 - 1)) + [LETTER_A + index % 26]
  }

  /** The loop of columnIndexOf on upper-case text, -1 at a character that is not a letter. */
  function LettersValue(name: Text, value: int): int
    decreases |name|
  {
    if name == [] then value - 1
    else if !Upper(name[0]) then -1
    else LettersValue(name[1..], value * 26 + (name[0] as int - 64))
  }

  function ColumnIndexOf(name: Text): int {
    LettersValue(ToUpper(name), 0)
  }

  method ColumnNameLoop(index: nat) returns (name: Text)
    ensures name == ColumnName(index)
  {
    name := [];
    var value: int := index;
    assert ColumnName(index) + [] == ColumnName(index);
    while value >= 0
      invariant value >= -1
      invariant value >= 0 ==> ColumnName(index) == ColumnName(value) + name
      invariant value == -1 ==> ColumnName(index) == name
      decreases value
    {
      var letter: CodeUnit := LETTER_A + value % 26;
      assert ColumnName(value) + name == (if value < 26 then [] else ColumnName(value / 26 - 1)) + ([letter] + name);
      name := [letter] + name;
      value := value / 26 - 1;
    }
  }

  method ColumnIndexOfLoop(name: Text) returns (index: int)
    ensures index == ColumnIndexOf(name)
  {
    var upper := ToUpper(name);
    var value := 0;
    assert upper[0..] == upper;
    for i := 0 to |upper|
      invariant LettersValue(upper, 0) == LettersValue(upper[i..], value)
    {
      assert upper[i..][1..] == upper[i + 1..];
      if !Upper(upper[i]) { return -1; }
      value := value * 26 + (upper[i] as int - 64);
    }
    index := value - 1;
  }

  lemma {:induction false} LettersValueLast(name: Text, last: CodeUnit, value: int)
    requires (forall i :: 0 <= i < |name| ==> Upper(name[i])) && Upper(last)
    ensures LettersValue(name + [last], value) == (LettersValue(name, value) + 1) * 26 + (last as int - 64) - 1
    decreases |name|
  {
    if name == [] {
      assert [] + [last] == [last] && [last][1..] == [];
    } else {
      assert (name + [last])[1..] == name[1..] + [last];
      LettersValueLast(name[1..], last, value * 26 + (name[0] as int - 64));
    }
  }

  lemma {:induction false} NameValue(index: nat)
    ensures LettersValue(ColumnName(index), 0) == index
  {
    var front := if index < 26 then [] else ColumnName(index / 26 - 1);
    LettersValueLast(front, LETTER_A + index % 26, 0);
    if index >= 26 { NameValue(index / 26 - 1); }
  }

  lemma UpperIsUpper(t: Text)
    requires forall i :: 0 <= i < |t| ==> Upper(t[i])
    ensures ToUpper(t) == t
  {}

  lemma {:induction false} ValueBound(name: Text, value: int)
    requires (forall i :: 0 <= i < |name| ==> Upper(name[i])) && value >= 0
    ensures LettersValue(name, value) >= value - 1 && (name != [] ==> LettersValue(name, value) >= 0)
    decreases |name|
  {
    if name != [] { ValueBound(name[1..], value * 26 + (name[0] as int - 64)); }
  }

  lemma {:induction false} ValueName(name: Text)
    requires name != [] && forall i :: 0 <= i < |name| ==> Upper(name[i])
    ensures LettersValue(name, 0) >= 0 && ColumnName(LettersValue(name, 0)) == name
    decreases |name|
  {
    var front, last := name[..|name| - 1], name[|name| - 1];
    assert name == front + [last];
    LettersValueLast(front, last, 0);
    ValueBound(name, 0);
    if front != [] { ValueName(front); } else { assert LettersValue(front, 0) == -1; }
  }

  /** Column names are in one-to-one correspondence with the naturals: each inverts the other. */
  lemma ColumnsAreBijective(index: nat, name: Text)
    requires name != [] && forall i :: 0 <= i < |name| ==> Upper(name[i])
    ensures ColumnIndexOf(ColumnName(index)) == index
    ensures ColumnIndexOf(name) >= 0 && ColumnName(ColumnIndexOf(name)) == name
  {
    NameValue(index);
    UpperIsUpper(ColumnName(index));
    ValueName(name);
    UpperIsUpper(name);
  }

  // ---- rows and addresses --------------------------------------------------------------------

  /** A number in decimal. */
  function Decimal(n: nat): (r: Text)
    ensures r != [] && (forall i :: 0 <= i < |r| ==> Digit(r[i])) && (n > 0 ==> r[0] != DIGIT_0)
  {
    if n < 10 then [DIGIT_0 + n] else Decimal(n / 10) + [DIGIT_0 + n % 10]
  }

  function Number(t: Text, acc: nat): nat
    requires forall i :: 0 <= i < |t| ==> Digit(t[i])
    decreases |t|
  {
    if t == [] then acc
    else
      assert Digit(t[0]);
      Number(t[1..], acc * 10 + (t[0] as int - 48))
  }

  function Letters(t: Text): (n: nat)
    ensures n <= |t| && (forall i :: 0 <= i < n ==> Letter(t[i])) && (n < |t| ==> !Letter(t[n]))
  {
    if t == [] || !Letter(t[0]) then 0 else 1 + Letters(t[1..])
  }

  predicate RowText(t: Text) {
    t != [] && (forall i :: 0 <= i < |t| ==> Digit(t[i])) && t[0] != DIGIT_0
  }

  /** Letters, then a number that does not start with 0; None is row and column -1. */
  function ParseCellAddress(address: Text): Option<(nat, int)> {
    var n := Letters(address);
    if n == 0 || !RowText(address[n..]) then None
    else
      NumberBound(address[n..], 0);
      Some((Number(address[n..], 0) - 1, ColumnIndexOf(address[..n])))
  }

  function CellAddressOf(row: nat, column: nat): Text {
    ColumnName(column) + Decimal(row + 1)
  }

  lemma {:induction false} NumberBound(t: Text, acc: nat)
    requires forall i :: 0 <= i < |t| ==> Digit(t[i])
    ensures Number(t, acc) >= acc && (t != [] && t[0] != DIGIT_0 ==> Number(t, acc) >= 1)
    decreases |t|
  {
    if t != [] { NumberBound(t[1..], acc * 10 + (t[0] as int - 48)); }
  }

  lemma {:induction false} NumberLast(t: Text, last: CodeUnit, acc: nat)
    requires (forall i :: 0 <= i < |t| ==> Digit(t[i])) && Digit(last)
    ensures Number(t + [last], acc) == Number(t, acc) * 10 + (last as int - 48)
    decreases |t|
  {
    if t == [] {
      assert [] + [last] == [last] && [last][1..] == [];
    } else {
      assert (t + [last])[1..] == t[1..] + [last];
      NumberLast(t[1..], last, acc * 10 + (t[0] as int - 48));
    }
  }

  lemma {:induction false} DecimalValue(n: nat)
    ensures Number(Decimal(n), 0) == n
  {
    if n >= 10 {
      DecimalValue(n / 10);
      NumberLast(Decimal(n / 10), DIGIT_0 + n % 10, 0);
    } else {
      assert [DIGIT_0 + n][1..] == [];
    }
  }

  lemma {:induction false} ValueDecimal(t: Text)
    requires RowText(t)
    ensures Number(t, 0) >= 1 && Decimal(Number(t, 0)) == t
    decreases |t|
  {
    var front, last := t[..|t| - 1], t[|t| - 1];
    assert t == front + [last];
    NumberLast(front, last, 0);
    if front == [] {
      assert Number(front, 0) == 0;
    } else {
      ValueDecimal(front);
    }
  }

  /** parseCellAddress inverts cellAddress. */
  lemma ParseInvertsAddress(row: nat, column: nat)
    ensures ParseCellAddress(CellAddressOf(row, column)) == Some((row, column))
  {
    var name, digits := ColumnName(column), Decimal(row + 1);
    var t := name + digits;
    NameValue(column);
    UpperIsUpper(name);
    DecimalValue(row + 1);
    assert forall i :: 0 <= i < |name| ==> t[i] == name[i];
    assert t[|name|] == digits[0];
    assert Letters(t) == |name|;
    assert t[..|name|] == name && t[|name|..] == digits;
  }

  /** Every accepted address is, in upper case, the address of the cell it names. */
  lemma AddressInvertsParse(t: Text)
    requires ParseCellAddress(t).Some?
    ensures
      var (row, column) := ParseCellAddress(t).value;
      column >= 0 && CellAddressOf(row, column) == ToUpper(t)
  {
    var n := Letters(t);
    ValueName(ToUpper(t[..n]));
    ValueDecimal(t[n..]);
    assert ToUpper(t) == ToUpper(t[..n]) + t[n..];
  }
}

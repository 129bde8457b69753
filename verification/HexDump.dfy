/** src/hexdump.c: the bounded hex printer, and a parser that undoes it. */
module HexDump {
  import opened Bytes

  const BYTES_PER_ROW: nat := 16
  const DIGITS: string := "0123456789abcdef"

  function Digit(d: nat): char
    requires d < 16
  {
    DIGITS[d]
  }

  /** What one byte is printed as, at position i: two digits and a separator. */
  function Cell(b: byte, i: nat): (s: string)
    ensures |s| == 3
  {
    [Digit(b as nat / 16), Digit(b as nat % 16), if (i + 1) % BYTES_PER_ROW == 0 then '\n' else ' ']
  }

  function Text(data: seq<byte>): (s: string)
    ensures |s| == 3 * |data|
  {
    if data == [] then ""
    else Text(data[..|data| - 1]) + Cell(data[|data| - 1], |data| - 1)
  }

  // ---------- reading it back ----------

  function Value(c: char): nat {
    if '0' <= c <= '9' then (c - '0') as nat else if 'a' <= c <= 'f' then 10 + (c - 'a') as nat else 0
  }

  function Parse(s: string): seq<byte> {
    if |s| < 3 then []
    else
      var v := 16 * Value(s[|s| - 3]) + Value(s[|s| - 2]);
      Parse(s[..|s| - 3]) + [if v < 0x100 then v as byte else 0]
  }

  lemma {:induction false} ValueOfDigit(d: nat)
    requires d < 16
    ensures Value(Digit(d)) == d && Digit(d) != '\n'
  {
  }

  lemma {:induction false} ParseCell(s: string, b: byte, i: nat)
    ensures Parse(s + Cell(b, i)) == Parse(s) + [b]
  {
    ValueOfDigit(b as nat / 16);
    ValueOfDigit(b as nat % 16);
    var t := s + Cell(b, i);
    assert t[..|t| - 3] == s && t[|t| - 3] == Digit(b as nat / 16) && t[|t| - 2] == Digit(b as nat % 16);
    hide Digit, Value;
  }

  lemma {:induction false} TextSnoc(data: seq<byte>, b: byte)
    ensures Text(data + [b]) == Text(data) + Cell(b, |data|)
  {
  }

  /** Parsing undoes printing. */
  lemma {:induction false} ParseUndoesText(data: seq<byte>)
    ensures Parse(Text(data)) == data
  {
    if data != [] {
      hide *;
      var init, b := data[..|data| - 1], data[|data| - 1];
      assert data == init + [b];
      ParseUndoesText(init);
      ParseCell(Text(init), b, |init|);
      TextSnoc(init, b);
    }
  }

  /** Newlines stand exactly after every sixteenth byte. */
  lemma {:induction false} NewlineEveryRow(data: seq<byte>, k: nat)
    requires k < |Text(data)|
    ensures Text(data)[k] == '\n' <==> k % 3 == 2 && (k / 3 + 1) % BYTES_PER_ROW == 0
  {
    var init, b := data[..|data| - 1], data[|data| - 1];
    if k < |Text(init)| {
      NewlineEveryRow(init, k);
    } else {
      ValueOfDigit(b as nat / 16);
      ValueOfDigit(b as nat % 16);
      assert Text(data)[k] == Cell(b, |data| - 1)[k - 3 * (|data| - 1)];
    }
  }

  /** Every byte is two lower-case hexadecimal digits and one separator: a newline after every sixteenth
      byte, a space after all others. */
  lemma {:induction false} TextIs(data: seq<byte>, i: nat)
    requires i < |data|
    ensures var s := Text(data); var hex := "0123456789abcdef";
      && s[3 * i] == hex[data[i] as nat / 16] && s[3 * i + 1] == hex[data[i] as nat % 16]
      && s[3 * i + 2] == if (i + 1) % 16 == 0 then '\n' else ' '
  {
    var init := data[..|data| - 1];
    if i < |init| {
      TextIs(init, i);
    } else {
      assert Text(data) == Text(init) + Cell(data[i], i);
    }
  }

  // ---------- the printer ----------

  /** How many bytes of the data a buffer of the given size takes: the least of all of them and
      (size - 4) / 3 rounded up, and none when the size is at most 4. */
  function Printed(len: nat, size: nat): nat {
    var room := if size <= 4 then 0 else (size - 4 + 2) / 3;
    if len <= room then len else room
  }

  /** One byte more is printed as long as four characters fit behind those printed. */
  lemma {:induction false} PrintedIs(len: nat, size: nat, n: nat)
    ensures n == Printed(len, size)
      <==> n <= len && (n > 0 ==> 3 * (n - 1) + 4 < size) && (n < len ==> 3 * n + 4 >= size)
  {
  }

  lemma {:induction false} NoText(data: seq<byte>)
    ensures Text(data[..0]) == ""
  {
  }

  lemma {:induction false} TextMore(data: seq<byte>, i: nat)
    requires i < |data|
    ensures Text(data[..i + 1]) == Text(data[..i]) + Cell(data[i], i)
  {
    assert data[..i + 1] == data[..i] + [data[i]];
    TextSnoc(data[..i], data[i]);
  }

  /** Writes one cell and the terminating NUL. */
  method WriteCell(out: array<char>, pos: nat, cell: string)
    requires |cell| == 3 && pos + 4 <= out.Length
    modifies out
    ensures out[..pos + 3] == old(out[..pos]) + cell && out[pos + 3] == '\0'
    ensures forall j :: pos + 3 < j < out.Length ==> out[j] == old(out[j])
  {
    out[pos], out[pos + 1], out[pos + 2], out[pos + 3] := cell[0], cell[1], cell[2], '\0';
  }

  /** A buffer that is not empty ends up holding the text of exactly the bytes it takes, ended by a
      NUL inside it; what lies beyond is not touched. */
  method HexdumpBuf(data: seq<byte>, out: array<char>)
    modifies out
    ensures out.Length > 0 ==>
      var n := Printed(|data|, out.Length);
      && n <= |data| && (n > 0 ==> 3 * (n - 1) + 4 < out.Length) && (n < |data| ==> 3 * n + 4 >= out.Length)
      && 3 * n < out.Length && out[..3 * n] == Text(data[..n]) && out[3 * n] == '\0'
      && forall i :: 3 * n < i < out.Length ==> out[i] == old(out[i])
  {
    if out.Length == 0 {
      return;
    }
    hide Text, Cell, Printed;
    NoText(data);
    out[0] := '\0';
    var pos, i := 0, 0;
    while i < |data| && pos + 4 < out.Length
      invariant 0 <= i <= |data| && pos == 3 * i < out.Length && (i > 0 ==> 3 * (i - 1) + 4 < out.Length)
      invariant out[..pos] == Text(data[..i]) && out[pos] == '\0'
      invariant forall j :: pos < j < out.Length ==> out[j] == old(out[j])
      decreases |data| - i
    {
      TextMore(data, i);
      WriteCell(out, pos, Cell(data[i], i));
      pos := pos + 3;
      i := i + 1;
    }
    PrintedIs(|data|, out.Length, i);
  }
}

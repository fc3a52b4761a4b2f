/** Cell identities: `${type}-${id}-${cellCounter()}`. The counter's decimal
    rendering is written out so that the serial number can be read back from
    a name, which is what makes names with different serials different. */
module CellNames {

  predicate IsDigit(c: char) {
    '0' <= c <= '9'
  }

  /** Every character of `s` is a decimal digit, checked from the end. */
  predicate AllDigits(s: string)
    decreases |s|
  {
    s == [] || (IsDigit(s[|s| - 1]) && AllDigits(s[..|s| - 1]))
  }

  function DigitChar(d: nat): (c: char)
    requires d < 10
    ensures IsDigit(c) && c as int - '0' as int == d
  {
    ('0' as int + d) as char
  }

  /** The decimal rendering of a counter value, as JavaScript's template
      literal prints a non-negative integer. */
  function NatToString(n: nat): (s: string)
    ensures |s| >= 1 && AllDigits(s)
    ensures n >= 10 ==> |s| >= 2
  {
    if n < 10 then [DigitChar(n)] else NatToString(n / 10) + [DigitChar(n % 10)]
  }

  /** The number a string of decimal digits denotes. */
  function DigitsValue(s: string): nat
    requires AllDigits(s)
  {
    if s == [] then 0
    else DigitsValue(s[..|s| - 1]) * 10 + (s[|s| - 1] as int - '0' as int)
  }

  lemma {:induction false} DigitsRoundTrip(n: nat)
    ensures DigitsValue(NatToString(n)) == n
  {
    var s := NatToString(n);
    if n >= 10 {
      assert s[..|s| - 1] == NatToString(n / 10);
      DigitsRoundTrip(n / 10);
    } else {
      assert s[..|s| - 1] == [];
    }
  }

  /** The mesh name `_generateCell` gives a cell (js/app.js:225). */
  function MeshName(kind: string, id: string, serial: nat): string {
    kind + "-" + id + "-" + NatToString(serial)
  }

  /** The serial number a mesh name ends in: the value of the digits after
      its last '-' (or of the whole name, when it has no '-'), or -1 when
      that part is empty or holds anything but digits. */
  function SerialOf(name: string): int
    decreases |name|
  {
    if name == [] || !IsDigit(name[|name| - 1]) then -1
    else
      var init := name[..|name| - 1];
      var digit := name[|name| - 1] as int - '0' as int;
      if init == [] || init[|init| - 1] == '-' then digit
      else if SerialOf(init) < 0 then -1
      else SerialOf(init) * 10 + digit
  }

  /** A name ending in '-' and a run of digits has the serial those digits
      denote. */
  lemma {:induction false} SerialAfterDash(p: string, d: string)
    requires |d| >= 1 && AllDigits(d)
    ensures SerialOf(p + "-" + d) == DigitsValue(d)
    decreases |d|
  {
    var s := p + "-" + d;
    var d' := d[..|d| - 1];
    assert s[..|s| - 1] == p + "-" + d';
    if |d| >= 2 {
      SerialAfterDash(p, d');
    } else {
      assert d' == [];
    }
  }

  lemma {:induction false} SerialOfMeshName(kind: string, id: string, serial: nat)
    ensures SerialOf(MeshName(kind, id, serial)) == serial
  {
    var digits := NatToString(serial);
    assert MeshName(kind, id, serial) == (kind + "-" + id) + "-" + digits;
    SerialAfterDash(kind + "-" + id, digits);
    DigitsRoundTrip(serial);
  }

  /** Two cells built with different counter values never share a name,
      whatever their record types and ids. */
  lemma {:induction false} MeshNamesDiffer(kind1: string, id1: string, serial1: nat,
                        kind2: string, id2: string, serial2: nat)
    requires serial1 != serial2
    ensures MeshName(kind1, id1, serial1) != MeshName(kind2, id2, serial2)
  {
    SerialOfMeshName(kind1, id1, serial1);
    SerialOfMeshName(kind2, id2, serial2);
  }
}

/** Which byte strings may be names of zip entries: UTF-8 of up to six bytes a character, without NUL. */
module EntryNames {
  import opened Bits
  import opened WordSizes

  /** How many bytes continue the sequence that this byte begins; absent if it cannot begin one. */
  function Continuations(byte: Byte): int {
    if byte == 0 then -1
    else if byte < 0x80 then 0
    else if byte < 0xc0 then -1
    else if byte < 0xe0 then 1
    else if byte < 0xf0 then 2
    else if byte < 0xf8 then 3
    else if byte < 0xfc then 4
    else if byte < 0xfe then 5
    else -1
  }

  predicate IsContinuation(byte: Byte) {
    0x80 <= byte < 0xc0
  }

  /** The string from `i` on is a run of whole sequences. */
  predicate Sequences(name: seq<Byte>, i: nat)
    decreases |name| - i
  {
    if i >= |name| then i == |name|
    else
      var n := Continuations(name[i]);
      n >= 0 && i + n < |name| && (forall k :: i < k <= i + n ==> IsContinuation(name[k])) && Sequences(name, i + n + 1)
  }

  predicate ValidName(name: seq<Byte>) {
    |name| <= UINT16_MAX && Sequences(name, 0)
  }

  /** How many bits from the top are set. */
  function Ones(byte: Byte): nat {
    if byte < 0x80 then 0
    else if byte < 0xc0 then 1
    else if byte < 0xe0 then 2
    else if byte < 0xf0 then 3
    else if byte < 0xf8 then 4
    else if byte < 0xfc then 5
    else if byte < 0xfe then 6
    else if byte < 0xff then 7
    else 8
  }

  /** Shifting out a bit that is set leaves one fewer. */
  lemma OnesShift(byte: Byte)
    requires byte >= 0x80
    ensures Ones(byte % 0x80 * 2) == Ones(byte) - 1
  {
  }

  method IsValidEntryName(name: seq<Byte>) returns (valid: bool)
    ensures valid <==> ValidName(name)
  {
    if |name| > UINT16_MAX { return false; }
    var i := 0;
    while i < |name|
      invariant 0 <= i <= |name| && (Sequences(name, 0) <==> Sequences(name, i))
    {
      var byte := name[i];
      ghost var begin := i;
      if byte == 0 { return false; }
      if byte >= 0x80 {
        if byte < 0xc0 || byte >= 0xfe { return false; }
        OnesShift(byte);
        var first: Byte := byte % 0x80 * 2;
        while first >= 0x80
          invariant begin <= i < |name| && name[begin] == byte && i - begin + Ones(first) == Continuations(byte)
          invariant forall k :: begin < k <= i ==> IsContinuation(name[k])
          decreases Ones(first)
        {
          i := i + 1;
          if i == |name| { return false; }
          if !(0x80 <= name[i] < 0xc0) { return false; }
          OnesShift(first);
          first := first % 0x80 * 2;
        }
      }
      i := i + 1;
    }
    return true;
  }
}

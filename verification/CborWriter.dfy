/**
 The CBOR writer: a caller's buffer filled from the front, a stack of nesting records growing
 downwards, and a sticky error state in which the buffer pointer is NULL.
 */
module CborWriter {
  import opened Bytes
  import opened CborFormat
  import opened CborWriterSpec

  const NULL := -1

  function BitOr(a: byte, b: byte): byte {
    (a as bv8 | b as bv8) as byte
  }

  lemma BitOrIsAdd(a: byte, b: byte)
    requires IsMajor(a) && b < 0x20
    ensures BitOr(a, b) == a + b
  {
    var m := a / 0x20;
    assert m == 0 || m == 1 || m == 2 || m == 3 || m == 4 || m == 5 || m == 6 || m == 7;
  }

  lemma Regroup(a: seq<byte>, b: seq<byte>, c: seq<byte>, d: seq<byte>)
    ensures a + b + c + d == a + (b + c) + d
  {
  }

  class Writer {
    const buf: array<byte>
    var buffer: int
    var bufferSize: nat
    var nestingDepth: nat
    const records: array<Record>

    ghost function Limits(): Config {
      Config(buf.Length, records.Length)
    }

    /** What the machine of CborWriterSpec sees. */
    ghost function View(): State
      reads this, buf, records
      requires Shape()
    {
      if buffer == NULL then Broken else Live(buf[..buffer], records[nestingDepth..])
    }

    ghost predicate Shape()
      reads this
    {
      && -1 <= buffer <= buf.Length && nestingDepth <= records.Length
      && bufferSize == (if buffer == NULL then 0 else buf.Length - buffer)
    }

    ghost predicate Valid()
      reads this, buf, records
    {
      Shape() && Inv(Limits(), View())
    }

    constructor (buf: array<byte>, maxNesting: nat)
      ensures Valid() && this.buf == buf && records.Length == maxNesting && fresh(records)
      ensures View() == INITIAL
    {
      this.buf := buf;
      buffer := 0;
      bufferSize := buf.Length;
      nestingDepth := maxNesting;
      records := new Record[maxNesting](_ => Record(NULL, 0));
    }

    method End() returns (size: nat)
      requires Valid()
      ensures size == EndWriter(View())
    {
      size := if nestingDepth == records.Length && buffer != NULL then buffer else 0;
    }

    method Break()
      requires nestingDepth <= records.Length
      modifies this`buffer, this`bufferSize
      ensures Valid() && View() == Broken
    {
      buffer := NULL;
      bufferSize := 0;
    }

    /** Counts one more object in the innermost container; nothing else changes. */
    method Increment()
      requires nestingDepth <= records.Length
      modifies records
      ensures records[nestingDepth..] == Count(old(records[nestingDepth..]))
    {
      if nestingDepth == records.Length {
        return;
      }
      records[nestingDepth] := records[nestingDepth].(objects := records[nestingDepth].objects + 1);
    }

    method WriteFirstByte(value: byte)
      requires Shape()
      modifies this`buffer, this`bufferSize, buf, records
      ensures Shape() && View() == Append(Limits(), old(View()), [value])
    {
      if bufferSize == 0 {
        Break();
        return;
      }
      ghost var s := View();
      buf[buffer] := value;
      buffer := buffer + 1;
      bufferSize := bufferSize - 1;
      Increment();
      assert buf[..buffer] == s.out + [value];
    }

    /** Copies bytes without counting an object. */
    method CopyBytes(bytes: seq<byte>)
      requires Shape()
      modifies this`buffer, this`bufferSize, buf
      ensures Shape()
      ensures View() ==
        if bytes == [] then old(View())
        else if old(View()).Live? && |old(View()).out| + |bytes| <= buf.Length
        then Live(old(View()).out + bytes, old(View()).open)
        else Broken
    {
      if |bytes| == 0 {
        return;
      }
      if bufferSize < |bytes| {
        Break();
        return;
      }
      ghost var s := View();
      forall i | 0 <= i < |bytes| {
        buf[buffer + i] := bytes[i];
      }
      buffer := buffer + |bytes|;
      bufferSize := bufferSize - |bytes|;
      assert buf[..buffer] == s.out + bytes && records[nestingDepth..] == s.open;
    }

    method WriteObject(encoded: seq<byte>)
      requires Valid()
      modifies this`buffer, this`bufferSize, buf, records
      ensures Valid() && View() == Step(Limits(), old(View()), CborWriterSpec.WriteObject(encoded))
    {
      if |encoded| == 0 {
        return;
      }
      ghost var s := View();
      CopyBytes(encoded);
      assert buffer != NULL ==> records[nestingDepth..] == s.open;
      Increment();
      StepKeepsInv(Limits(), s, CborWriterSpec.WriteObject(encoded));
    }

    /**
     Completes the head in front of `destination`: ORs the additional information into the initial byte,
     moves everything behind it up, and stores the big-endian value in the gap.
     */
    method Insert(destination: int, value: nat)
      requires Shape()
      requires buffer != NULL ==> 1 <= destination <= buffer && IsMajor(buf[destination - 1])
      requires value < TWO_64
      modifies this`buffer, this`bufferSize, buf
      ensures Shape()
      ensures View() == InsertUnsigned(Limits(), old(View()), destination, value)
    {
      if buffer == NULL {
        return;
      }
      ghost var s := View();
      if value < 24 {
        OrInto(destination - 1, value);
        assert buf[..buffer] == s.out[..destination - 1] + Head(s.out[destination - 1], value) + s.out[destination..];
        return;
      }
      var length, info := Width(value);
      OrInto(destination - 1, info);
      ghost var front := s.out[..destination - 1];
      assert buf[..destination] == front + [s.out[destination - 1] + info];
      assert buf[destination..buffer] == s.out[destination..];
      if bufferSize < length {
        Break();
        return;
      }
      Widen(destination, length, value);
      Regroup(front, [s.out[destination - 1] + info], BigEndian(value, length), s.out[destination..]);
    }

    /** The additional information for a value of 24 or more, and the number of bytes it announces. */
    method Width(value: nat) returns (length: nat, info: byte)
      requires value >= 24
      ensures length == ExtraBytes(value) && info == Info(value)
    {
      if value <= 0xFF {
        return 1, 0x18;
      } else if value <= 0xFFFF {
        return 2, 0x19;
      } else if value <= 0xFFFF_FFFF {
        return 4, 0x1A;
      } else {
        return 8, 0x1B;
      }
    }

    /** Makes room for `length` bytes at `destination` and stores `value` there. */
    method Widen(destination: nat, length: nat, value: nat)
      requires destination <= buffer && buffer + length <= buf.Length && bufferSize == buf.Length - buffer
      modifies this`buffer, this`bufferSize, buf
      ensures buffer == old(buffer) + length && bufferSize == buf.Length - buffer
      ensures buf[..buffer] == old(buf[..destination]) + BigEndian(value, length) + old(buf[destination..buffer])
    {
      Shift(destination, length);
      buffer := buffer + length;
      bufferSize := bufferSize - length;
      ghost var k, tail := buffer - destination - length, buf[destination + length..];
      assert tail[..k] == buf[destination + length..buffer];
      Serialize(destination, length, value);
      assert buf[destination + length..buffer] == tail[..k];
      assert buf[..buffer] ==
             buf[..destination] + buf[destination..destination + length] + buf[destination + length..buffer];
    }

    method OrInto(i: nat, bits: byte)
      requires i < buf.Length && IsMajor(buf[i]) && bits < 0x20
      modifies buf
      ensures buf[..] == old(buf[..])[i := old(buf[i]) + bits]
    {
      BitOrIsAdd(buf[i], bits);
      buf[i] := BitOr(buf[i], bits);
    }

    /** Opens a gap of `length` bytes at `destination` (the memmove of the contents). */
    method Shift(destination: nat, length: nat)
      requires destination <= buffer && buffer + length <= buf.Length
      modifies buf
      ensures buf[..destination] == old(buf[..destination])
      ensures buf[destination + length..buffer + length] == old(buf[destination..buffer])
    {
      forall i | 0 <= i < buffer - destination {
        buf[destination + length + i] := buf[destination + i];
      }
    }

    method Serialize(destination: nat, length: nat, value: nat)
      requires destination + length <= buf.Length
      modifies buf
      ensures buf[..destination] == old(buf[..destination])
      ensures buf[destination..destination + length] == BigEndian(value, length)
      ensures buf[destination + length..] == old(buf[destination + length..])
    {
      var k, v := length, value;
      while k > 0
        invariant 0 <= k <= length
        invariant BigEndian(value, length) == BigEndian(v, k) + buf[destination + k..destination + length]
        invariant buf[..destination] == old(buf[..destination])
        invariant buf[destination + length..] == old(buf[destination + length..])
      {
        k := k - 1;
        buf[destination + k] := v % 0x100;
        v := v / 0x100;
        assert buf[destination + k..destination + length] ==
               [buf[destination + k]] + buf[destination + k + 1..destination + length];
      }
    }

    method WriteHead(major: byte, value: nat)
      requires Shape() && IsMajor(major) && value < TWO_64
      modifies this`buffer, this`bufferSize, buf, records
      ensures Shape() && View() == Append(Limits(), old(View()), Head(major, value))
    {
      ghost var s := View();
      WriteFirstByte(major);
      Insert(buffer, value);
      if buffer != NULL {
        assert View().out == s.out + Head(major, value);
      }
    }

    method WriteUnsigned(value: u64)
      requires Valid()
      modifies this`buffer, this`bufferSize, buf, records
      ensures Valid() && View() == Step(Limits(), old(View()), CborWriterSpec.WriteUnsigned(value))
    {
      WriteHead(UNSIGNED, value);
      StepKeepsInv(Limits(), old(View()), CborWriterSpec.WriteUnsigned(value));
    }

    method WriteSigned(value: i64)
      requires Valid()
      modifies this`buffer, this`bufferSize, buf, records
      ensures Valid() && View() == Step(Limits(), old(View()), CborWriterSpec.WriteSigned(value))
    {
      if value >= 0 {
        WriteUnsigned(value);
      } else {
        WriteHead(SIGNED, -1 - value);
        StepKeepsInv(Limits(), old(View()), CborWriterSpec.WriteSigned(value));
      }
    }

    /** Head and contents of a byte or text string. */
    method WriteString(major: byte, bytes: seq<byte>)
      requires Shape() && IsMajor(major) && |bytes| < TWO_64
      modifies this`buffer, this`bufferSize, buf, records
      ensures Shape() && View() == Append(Limits(), old(View()), Head(major, |bytes|) + bytes)
    {
      ghost var s := View();
      WriteHead(major, |bytes|);
      CopyBytes(bytes);
      if s.Live? {
        assert s.out + Head(major, |bytes|) + bytes == s.out + (Head(major, |bytes|) + bytes);
      }
    }

    method WriteData(data: seq<byte>)
      requires Valid() && |data| < TWO_64
      modifies this`buffer, this`bufferSize, buf, records
      ensures Valid() && View() == Step(Limits(), old(View()), CborWriterSpec.WriteData(data))
    {
      WriteString(BYTE_STRING, data);
      StepKeepsInv(Limits(), old(View()), CborWriterSpec.WriteData(data));
    }

    method WriteText(text: seq<byte>)
      requires Valid() && |text| < TWO_64
      modifies this`buffer, this`bufferSize, buf, records
      ensures Valid() && View() == Step(Limits(), old(View()), CborWriterSpec.WriteText(text))
    {
      WriteString(TEXT_STRING, text);
      StepKeepsInv(Limits(), old(View()), CborWriterSpec.WriteText(text));
    }

    method WriteSimple(value: SimpleValue)
      requires Valid()
      modifies this`buffer, this`bufferSize, buf, records
      ensures Valid() && View() == Step(Limits(), old(View()), CborWriterSpec.WriteSimple(value))
    {
      WriteFirstByte(SimpleByte(value));
      StepKeepsInv(Limits(), old(View()), CborWriterSpec.WriteSimple(value));
    }

    method Open(kind: Kind)
      requires Valid()
      modifies this`buffer, this`bufferSize, this`nestingDepth, buf, records
      ensures Valid() && View() == Step(Limits(), old(View()), CborWriterSpec.Open(kind))
    {
      if nestingDepth == 0 {
        Break();
        return;
      }
      ghost var s := View();
      WriteFirstByte(KindByte(kind));
      Push();
      StepKeepsInv(Limits(), s, CborWriterSpec.Open(kind));
    }

    method Push()
      requires 0 < nestingDepth <= records.Length
      modifies this`nestingDepth, records
      ensures nestingDepth == old(nestingDepth) - 1
      ensures records[nestingDepth..] == [Record(buffer, 0)] + old(records[nestingDepth..])
    {
      nestingDepth := nestingDepth - 1;
      records[nestingDepth] := Record(buffer, 0);
    }

    /** `generic_close`; on a broken writer only the depth changes. */
    method CloseWith(value: int)
      requires Valid() && nestingDepth < records.Length
      requires buffer != NULL ==> 0 <= value < TWO_64
      modifies this`buffer, this`bufferSize, this`nestingDepth, buf
      ensures old(buffer) == NULL ==> Valid() && View() == Broken
      ensures old(buffer) != NULL ==>
        && nestingDepth == old(nestingDepth) + 1 && Shape()
        && match InsertUnsigned(Limits(), old(View()), old(records[nestingDepth].start), value)
           case Broken => buffer == NULL
           case Live(out, _) => View() == Live(out, old(View()).open[1..])
    {
      if buffer != NULL {
        assert records[nestingDepth] == View().open[0];
        Insert(records[nestingDepth].start, value);
      }
      nestingDepth := nestingDepth + 1;
    }

    method Close(kind: Kind)
      requires Valid() && buf.Length < TWO_64
      modifies this`buffer, this`bufferSize, this`nestingDepth, buf
      ensures Valid() && View() == Step(Limits(), old(View()), CborWriterSpec.Close(kind))
    {
      if nestingDepth == records.Length || (kind.Dict? && records[nestingDepth].objects % 2 == 1) {
        Break();
        return;
      }
      ghost var s := View();
      assert s.Live? ==> s.open[0] == records[nestingDepth];
      var objects := records[nestingDepth].objects;
      CloseWith(match kind
                case Bytes => buffer - records[nestingDepth].start
                case List => objects
                case Dict => objects / 2);
      if s.Live? {
        StepKeepsInv(Limits(), s, CborWriterSpec.Close(kind));
      }
    }
  }
}

/**
 The sized writers: text goes into a buffer as far as it fits while its whole length is counted,
 so that a first call without a buffer measures what a second call writes.
 */
module TextWriters {
  import opened Decimals
  import opened TargetInfo

  // What a writer has taken so far.
  datatype Out = Failed | Written(text: string)

  predicate Fits(o: Out) {
    o.Written? ==> |o.text| <= INT_MAX
  }

  function Put(o: Out, s: string): (p: Out)
    ensures p.Written? ==> o.Written? && Fits(p)
  {
    if o.Failed? || |o.text| + |s| > INT_MAX then Failed else Written(o.text + s)
  }

  // Writing piece by piece is writing the whole.
  lemma PutPut(o: Out, a: string, b: string)
    ensures Put(Put(o, a), b) == Put(o, a + b)
  {
    if o.Written? {
      Assoc(o.text, a, b);
    }
  }

  class TextWriter {
    const out: array?<char>
    const capacity: nat
    var length: nat
    var failed: bool
    ghost var text: string  // everything taken, in the buffer or not

    ghost predicate Valid()
      reads this, out
    {
      && length == |text| <= INT_MAX
      && (out != null ==> capacity <= out.Length)
      && (out != null ==> forall i :: 0 <= i < |text| && i + 1 < capacity ==> out[i] == text[i])
    }

    ghost function Out(): Out
      reads this
    {
      if failed then Failed else Written(text)
    }

    constructor (out: array?<char>, capacity: nat)
      requires out != null ==> capacity <= out.Length
      ensures Valid() && Out() == Written("")
      ensures this.out == out && this.capacity == capacity
    {
      this.out, this.capacity := out, capacity;
      length, failed, text := 0, false, "";
    }

    method WriteBytes(bytes: string)
      requires Valid()
      modifies this, out
      ensures Valid()
      ensures Out() == Put(old(Out()), bytes)
    {
      if failed {
        return;
      }
      if |bytes| > INT_MAX || length > INT_MAX - |bytes| {
        failed := true;
        return;
      }
      if out != null && capacity > 0 && length < capacity - 1 {
        var writable := capacity - 1 - length;
        if writable > |bytes| {
          writable := |bytes|;
        }
        forall i | 0 <= i < writable {
          out[length + i] := bytes[i];
        }
      }
      length := length + |bytes|;
      text := text + bytes;
    }

    method Fail()
      requires Valid()
      modifies this
      ensures Valid() && Out() == Failed
    {
      failed := true;
    }

    method WriteUnsigned(value: nat)
      requires Valid() && value <= 0xFFFF_FFFF
      modifies this, out
      ensures Valid()
      ensures Out() == Put(old(Out()), Decimal(value))
    {
      hide Decimal;
      var digits: array<char>, count: nat := DigitsOf(value);
      ghost var s := Decimal(value);
      assert old(Out()) == Put(old(Out()), "") && s[..0] == "";
      while count > 0
        invariant count <= |s| && Valid()
        invariant forall i :: 0 <= i < count ==> digits[i] == s[|s| - 1 - i]
        invariant Out() == Put(old(Out()), s[..|s| - count])
      {
        count := count - 1;
        assert s[..|s| - count] == s[..|s| - count - 1] + [digits[count]];
        PutPut(old(Out()), s[..|s| - count - 1], [digits[count]]);
        WriteBytes([digits[count]]);
      }
      assert s[..|s|] == s;
    }

    method WriteSigned(value: CInt)
      requires Valid()
      modifies this, out
      ensures Valid()
      ensures Out() == Put(old(Out()), Signed(value))
    {
      if value < 0 {
        PutPut(Out(), "-", Decimal(-(value as int)));
        WriteBytes("-");
        WriteUnsigned(-(value + 1) + 1);
        return;
      }
      WriteUnsigned(value);
    }

    // What the formatting functions do at the end: terminate the text in the buffer, and answer
    // its length or -1.
    method Finish() returns (r: int)
      requires Valid()
      modifies out
      ensures r == if failed then -1 else length
      ensures out != null && capacity > 0 ==>
        var end := if length < capacity then length else capacity - 1;
        out[end] == '\0' && out[..end] == text[..end]
    {
      if out != null && capacity > 0 {
        var end := if length < capacity then length else capacity - 1;
        out[end] := '\0';
      }
      r := if failed then -1 else length;
    }
  }

  // The digits of a number, the last one first, in a buffer of 16.
  method DigitsOf(value: nat) returns (digits: array<char>, count: nat)
    requires value <= 0xFFFF_FFFF
    ensures fresh(digits) && digits.Length == 16
    ensures count == |Decimal(value)| <= 10
    ensures forall i :: 0 <= i < count ==> digits[i] == Decimal(value)[count - 1 - i]
  {
    hide Decimal;
    hide Front;
    hide Digit;
    FrontStep(value);
    FrontStep(0);
    digits := new char[16];
    digits[0] := Digit(value % 10);
    var rest: nat := value / 10;
    count := 1;
    ghost var tail := [Digit(value % 10)];
    while rest != 0 && count < 16
      invariant 1 <= count == |tail| <= 10 && rest <= Limit(count)
      invariant Decimal(value) == Front(rest) + tail
      invariant forall i :: 0 <= i < count ==> digits[i] == tail[count - 1 - i]
    {
      LimitIsShort(count);
      FrontStep(rest);
      Assoc(Front(rest / 10), [Digit(rest % 10)], tail);
      digits[count] := Digit(rest % 10);
      tail := [Digit(rest % 10)] + tail;
      count := count + 1;
      rest := rest / 10;
    }
  }

  // The digits of a number that are still to come.
  function Front(n: nat): string {
    if n == 0 then "" else Decimal(n)
  }

  lemma FrontStep(n: nat)
    ensures Front(0) == ""
    ensures Decimal(n) == Front(n / 10) + [Digit(n % 10)]
    ensures n > 0 ==> Front(n) == Decimal(n)
  {}

  // What is left of the largest 32-bit number after so many digits.
  function Limit(count: nat): nat {
    if count == 0 then 0xFFFF_FFFF else Limit(count - 1) / 10
  }

  lemma LimitIsShort(count: nat)
    requires count <= 10
    ensures Limit(10) == 0 && Limit(count + 1) == Limit(count) / 10
  {
    assert Limit(3) == 4294967 && Limit(6) == 4294 && Limit(9) == 4;
  }
}

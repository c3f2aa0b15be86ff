/**
 RESP2 as a grammar, apart from any reader or writer: which bytes spell which frame. A number may
 be spelled with leading zeros or as a negative zero, so a frame has many spellings, of which the
 encoder writes one.
 */
module Spellings {
  import opened Basics
  import opened Decimals
  import opened Resp

  /** No carriage return is followed by a line feed. */
  predicate NoLineEnd(text: seq<byte>)
  {
    forall i :: 0 <= i < |text| - 1 ==> !(text[i] == 13 && text[i + 1] == 10)
  }

  // ---------- Numbers ----------

  predicate Numeral(digits: seq<byte>)
  {
    digits != [] && forall i :: 0 <= i < |digits| ==> 48 <= digits[i] <= 57
  }

  /** The number digits stand for, the first worth the most. */
  function Number(digits: seq<byte>): int
  {
    if digits == [] then 0 else (digits[0] as int - 48) * Pow10(|digits| - 1) + Number(digits[1..])
  }

  /** Digits with at most one minus in front. */
  predicate Writes(field: seq<byte>, n: int)
  {
    if field != [] && field[0] == 45 then Numeral(field[1..]) && n == -Number(field[1..])
    else Numeral(field) && n == Number(field)
  }

  // ---------- Frames ----------

  /** A type byte, a field, and a line end. */
  predicate Marked(line: seq<byte>, kind: byte)
  {
    |line| >= 3 && line[0] == kind && line[|line| - 2..] == [13, 10]
  }

  function Field(line: seq<byte>): seq<byte>
    requires |line| >= 3
  {
    line[1..|line| - 2]
  }

  /** Whether the bytes are a whole frame and nothing else. */
  ghost predicate Spells(t: seq<byte>, f: Frame)
    decreases f
  {
    match f
    case Simple(text) => Marked(t, 43) && Field(t) == text && NoLineEnd(text)
    case Error(text) => Marked(t, 45) && Field(t) == text && NoLineEnd(text)
    case Integer(value) => Marked(t, 58) && Writes(Field(t), value)
    case Null => Marked(t, 36) && Writes(Field(t), -1)
    case Bulk(payload) => SpellsBulk(t, payload)
    case Array(elements) =>
      exists k :: 3 <= k <= |t| && CountLine(t[..k], |elements|) && SpellsAll(t[k..], elements)
  }

  /** A declared length, exactly that many bytes, and a line end. */
  predicate SpellsBulk(t: seq<byte>, payload: seq<byte>)
  {
    && |t| >= |payload| + 5
    && var head := t[..|t| - |payload| - 2];
       && Marked(head, 36) && Writes(Field(head), |payload|)
       && t == head + payload + [13, 10]
  }

  predicate CountLine(line: seq<byte>, count: nat)
  {
    Marked(line, 42) && Writes(Field(line), count)
  }

  /** Frames one after another with nothing between them. */
  ghost predicate SpellsAll(t: seq<byte>, frames: seq<Frame>)
    decreases frames
  {
    if frames == [] then t == []
    else exists k :: 0 <= k <= |t| && Spells(t[..k], frames[0]) && SpellsAll(t[k..], frames[1..])
  }

  // ---------- Numbers, read and written ----------

  lemma {:induction false} NumberAppends(digits: seq<byte>, d: byte)
    ensures Number(digits + [d]) == 10 * Number(digits) + (d as int - 48)
  {
    if digits == [] {
      assert [] + [d] == [d] && [d][1..] == [];
    } else {
      assert (digits + [d])[1..] == digits[1..] + [d];
      NumberAppends(digits[1..], d);
      TenfoldMore(digits[0] as int - 48, Pow10(|digits| - 1));
    }
  }

  lemma TenfoldMore(a: int, p: int)
    ensures a * (10 * p) == 10 * (a * p)
  {
  }

  lemma {:induction false} NumberIsValue(digits: seq<byte>)
    requires AllDigits(digits)
    ensures Number(digits) == Value(digits)
  {
    hide Number;
    if digits == [] {
      NothingIsZero();
    } else {
      var n := |digits| - 1;
      NumberIsValue(digits[..n]);
      NumberAppends(digits[..n], digits[n]);
      assert digits[..n] + [digits[n]] == digits;
    }
  }

  lemma NothingIsZero()
    ensures Number([]) == 0
  {
  }

  /** The strict parse reads exactly what is written as a number of 64 bits. */
  lemma ParsesWhatIsWritten(field: seq<byte>, n: int)
    ensures ParseI64(field) == Some(n)
            <==> Writes(field, n) && -0x8000_0000_0000_0000 <= n <= 0x7FFF_FFFF_FFFF_FFFF
  {
    hide Number, Value;
    var negative := field != [] && field[0] == 45;
    var digits := if negative then field[1..] else field;
    if AllDigits(digits) {
      NumberIsValue(digits);
    }
  }

  /** And every number is written by its decimal form. */
  lemma DecimalWrites(n: int)
    ensures Writes(Decimal(n), n)
  {
    hide Number, Value, Digits;
    var size := if n < 0 then -n else n;
    NumberIsValue(Digits(size));
    DigitsRoundTrip(size);
    if n < 0 {
      assert Decimal(n)[1..] == Digits(-n);
    } else {
      assert IsDigit(Digits(n)[0]);
    }
  }

  lemma WrittenHasNoLineEnd(field: seq<byte>, n: int)
    requires Writes(field, n)
    ensures NoLineEnd(field)
  {
    hide Number;
    forall i | 0 <= i < |field| - 1 ensures !(field[i] == 13 && field[i + 1] == 10) {
      if i > 0 && field[0] == 45 {
        assert field[1..][i - 1] == field[i];
      }
    }
  }

  // ---------- The encoder spells ----------

  lemma LineIsMarked(kind: byte, field: seq<byte>)
    ensures Marked(Line(kind, field), kind) && Field(Line(kind, field)) == field
  {
    var line := Line(kind, field);
    assert line[|line| - 2..] == [13, 10];
  }

  lemma MarkedIsLine(line: seq<byte>, kind: byte)
    requires Marked(line, kind)
    ensures line == Line(kind, Field(line))
  {
    assert line == [line[0]] + line[1..|line| - 2] + line[|line| - 2..];
  }

  predicate TextsOk(f: Frame)
    decreases f
  {
    match f
    case Simple(text) => NoLineEnd(text)
    case Error(text) => NoLineEnd(text)
    case Array(elements) => forall i :: 0 <= i < |elements| ==> TextsOk(elements[i])
    case _ => true
  }

  /** What is written spells the frame, if no text of it holds a line end. */
  lemma {:induction false} WireSpells(f: Frame)
    requires TextsOk(f)
    ensures Spells(Wire(f), f)
    decreases f, 1
  {
    hide Decimal, Line, Marked, Field, Writes, NoLineEnd;
    assert !f.Array? ==> Wire(f) == Own(f);
    match f {
      case Simple(text) => LineIsMarked(43, text);
      case Error(text) => LineIsMarked(45, text);
      case Integer(value) =>
        LineIsMarked(58, Decimal(value));
        DecimalWrites(value);
      case Null =>
        LineIsMarked(36, Decimal(-1));
        DecimalWrites(-1);
      case Bulk(payload) =>
        BulkSpells(payload);
      case Array(elements) =>
        var head := Line(42, Decimal(|elements|));
        LineIsMarked(42, Decimal(|elements|));
        DecimalWrites(|elements|);
        WireAllSpells(f, elements);
        assert Wire(f)[..|head|] == head && Wire(f)[|head|..] == WireAll(elements);
    }
  }

  lemma BulkSpells(payload: seq<byte>)
    ensures SpellsBulk(Wire(Bulk(payload)), payload)
  {
    hide Decimal, Line, Marked, Field, Writes;
    var head := Line(36, Decimal(|payload|));
    LineIsMarked(36, Decimal(|payload|));
    DecimalWrites(|payload|);
    var t := Wire(Bulk(payload));
    assert t == head + payload + [13, 10];
    assert t[..|t| - |payload| - 2] == head;
    LongLine(head, 36);
  }

  lemma LongLine(line: seq<byte>, kind: byte)
    requires Marked(line, kind)
    ensures |line| >= 3
  {
  }

  lemma {:induction false} WireAllSpells(f: Frame, frames: seq<Frame>)
    requires forall i :: 0 <= i < |frames| ==> TextsOk(frames[i])
    requires forall i :: 0 <= i < |frames| ==> frames[i] < f
    ensures SpellsAll(WireAll(frames), frames)
    decreases f, 0, |frames|
  {
    hide Wire, Spells, TextsOk;
    if frames != [] {
      WireSpells(frames[0]);
      WireAllSpells(f, frames[1..]);
      var w := Wire(frames[0]);
      var t := WireAll(frames);
      assert t[..|w|] == w && t[|w|..] == WireAll(frames[1..]);
    }
  }

  // ---------- Joining ----------

  lemma {:induction false} SpellsAllAppends(a: seq<byte>, frames: seq<Frame>, b: seq<byte>, f: Frame)
    requires SpellsAll(a, frames) && Spells(b, f)
    ensures SpellsAll(a + b, frames + [f])
    decreases |frames|
  {
    hide Spells;
    if frames == [] {
      var t := a + b;
      assert t == b && t[..|b|] == b && t[|b|..] == [];
      assert (frames + [f])[0] == f && (frames + [f])[1..] == [];
      assert SpellsAll(t[|b|..], (frames + [f])[1..]);
    } else {
      var k :| 0 <= k <= |a| && Spells(a[..k], frames[0]) && SpellsAll(a[k..], frames[1..]);
      SpellsAllAppends(a[k..], frames[1..], b, f);
      var t := a + b;
      assert t[..k] == a[..k] && t[k..] == a[k..] + b;
      assert (frames + [f])[0] == frames[0] && (frames + [f])[1..] == frames[1..] + [f];
    }
  }

  lemma SpellsArray(head: seq<byte>, body: seq<byte>, elements: seq<Frame>)
    requires CountLine(head, |elements|) && SpellsAll(body, elements)
    ensures Spells(head + body, Array(elements))
  {
    hide SpellsAll, Writes;
    var t := head + body;
    assert t[..|head|] == head && t[|head|..] == body;
  }

  /** A spelling begins with the type byte of its frame, never with a line end. */
  lemma SpellingStarts(t: seq<byte>, f: Frame)
    requires Spells(t, f)
    ensures |t| >= 3 && t[0] in {43, 45, 58, 36, 42}
  {
    hide SpellsAll, Writes;
    if f.Bulk? {
      assert t[0] == t[..|t| - |f.payload| - 2][0];
    }
  }
}

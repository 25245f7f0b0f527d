/** The duplicate filter of serialRfid1356.cpp. */
module RfidFilter {
  import opened CStrings
  import opened Base64

  // sprintf("%03d")
  function Three(b: Byte): string {
    [DigitChar(b / 100), DigitChar(b / 10 % 10), DigitChar(b % 10)]
  }

  // The serial number of the four bytes of a card.
  function Serial(card: seq<Byte>): string
    requires |card| == 4
  {
    Three(card[0]) + Three(card[1]) + Three(card[2]) + Three(card[3])
  }

  lemma ThreeInjective(a: Byte, b: Byte)
    requires Three(a) == Three(b)
    ensures a == b
  {
    assert Three(a)[0] == Three(b)[0] && Three(a)[1] == Three(b)[1] && Three(a)[2] == Three(b)[2];
  }

  /** Two cards have the same serial number only if all four bytes agree. */
  lemma {:induction false} SerialInjective(a: seq<Byte>, b: seq<Byte>)
    requires |a| == 4 && |b| == 4
    ensures Serial(a) == Serial(b) <==> a == b
  {
    hide Three;
    if Serial(a) == Serial(b) {
      SerialParts(a);
      SerialParts(b);
      ThreeInjective(a[0], b[0]);
      ThreeInjective(a[1], b[1]);
      ThreeInjective(a[2], b[2]);
      ThreeInjective(a[3], b[3]);
      assert a == [a[0], a[1], a[2], a[3]];
    }
  }

  lemma {:induction false} ThreeDigits(b: Byte)
    ensures |Three(b)| == 3 && forall i :: 0 <= i < 3 ==> '0' <= Three(b)[i] <= '9'
    ensures AtoiDigits(Three(b), 0) == b
  {
    var s := Three(b);
    assert s[1..][1..] == s[2..] && s[2..][1..] == "";
    assert b / 10 / 10 == b / 100 && b / 100 < 10;
    assert b / 10 == 10 * (b / 100) + b / 10 % 10;
    assert AtoiDigits(s[2..], 10 * (b / 100) + b / 10 % 10) == b;
    assert AtoiDigits(s[1..], b / 100) == b;
  }

  /** A serial number has three decimal digits for each byte of the card, in the order of the bytes. */
  lemma {:induction false} SerialDigits(card: seq<Byte>, i: nat)
    requires |card| == 4 && i < 4
    ensures |Serial(card)| == 12
    ensures var part := Serial(card)[3 * i..3 * i + 3];
      Atoi(part) == card[i] && forall j :: 0 <= j < 3 ==> '0' <= part[j] <= '9'
  {
    hide Three, AtoiDigits;
    SerialParts(card);
    ThreeDigits(card[i]);
    var part := Serial(card)[3 * i..3 * i + 3];
    assert part == Three(card[i]);
    assert !IsSpace(part[0]) && part[0] != '-' && part[0] != '+';
  }

  lemma SerialParts(c: seq<Byte>)
    requires |c| == 4
    ensures |Serial(c)| == 12
    ensures Serial(c)[..3] == Three(c[0]) && Serial(c)[3..6] == Three(c[1])
    ensures Serial(c)[6..9] == Three(c[2]) && Serial(c)[9..12] == Three(c[3])
  {
  }

  datatype Answer = Fail | Same | Success

  const WINDOW := 6

  // What is remembered: the last serial number reported as new, and when.
  datatype Shadow = Shadow(serial: string, time: int)

  function Judge(s: Shadow, serial: string, t: int): (Shadow, Answer) {
    if t - s.time < WINDOW && serial == s.serial then (s, Same) else (Shadow(serial, t), Success)
  }

  // ---- the check of five-byte frames ----

  function Parity(a: bv8, b: bv8, c: bv8): bv8 {
    a ^ b ^ c
  }

  // As written, the last two bytes are compared first, and the result goes into the exclusive or.
  predicate AcceptsBits(a: bv8, b: bv8, c: bv8, d: bv8, e: bv8) {
    Parity(a, b, c) ^ (if d == e then 1 else 0) != 0
  }

  // The fifth byte is the exclusive or of the other four.
  predicate Checksum(a: bv8, b: bv8, c: bv8, d: bv8, e: bv8) {
    Parity(a, b, c) ^ d == e
  }

  predicate Accepts(frame: seq<Byte>)
    requires |frame| == 5
  {
    AcceptsBits(frame[0] as bv8, frame[1] as bv8, frame[2] as bv8, frame[3] as bv8, frame[4] as bv8)
  }

  /**
   Every frame with a right checksum is accepted. One with a wrong checksum is refused only if its first
   three bytes cancel out, or come to 1 while the last two are equal.
   */
  lemma {:induction false} AcceptsGoodFrames(a: bv8, b: bv8, c: bv8, d: bv8, e: bv8)
    ensures Checksum(a, b, c, d, e) ==> AcceptsBits(a, b, c, d, e)
    ensures !AcceptsBits(a, b, c, d, e) <==>
      !Checksum(a, b, c, d, e) && Parity(a, b, c) == if d == e then 1 else 0
  {
    hide Parity;
    var x := Parity(a, b, c);
    if x ^ d == e {
      Cancels(x, d, e);
    }
    Zero(x, if d == e then 1 else 0);
  }

  lemma Cancels(x: bv8, d: bv8, e: bv8)
    requires x ^ d == e
    ensures x != if d == e then 1 else 0
  {
  }

  lemma Zero(x: bv8, y: bv8)
    ensures x ^ y != 0 <==> x != y
  {
  }

  class SerialRfid1356 {
    var serialNumber: string
    var shadow: string
    var shadowTime: int

    constructor ()
      ensures shadow == "" && shadowTime == 0
    {
      serialNumber, shadow, shadowTime := "", "", 0;
    }

    // A frame of six bytes between 0x06 and 0xFF.
    method RequestData(frame: seq<Byte>, t: int) returns (answer: Answer)
      modifies this
      ensures answer == Fail <==> !(|frame| == 6 && frame[0] == 0x06 && frame[5] == 0xFF)
      ensures answer == Fail ==> shadow == old(shadow) && shadowTime == old(shadowTime)
      ensures answer != Fail ==>
        && serialNumber == Serial(frame[1..5])
        && (Shadow(shadow, shadowTime), answer) == Judge(Shadow(old(shadow), old(shadowTime)), Serial(frame[1..5]), t)
    {
      if |frame| != 6 {
        return Fail;
      }
      if frame[0] == 0x06 && frame[5] == 0xFF {
        answer := Filter(frame[1..5], t);
      } else {
        answer := Fail;
      }
    }

    // SerialRfid1356_: five bytes in the opposite order.
    method RequestReversed(frame: seq<Byte>, t: int) returns (answer: Answer)
      modifies this
      ensures answer == Fail <==> !(|frame| == 5 && Accepts(frame))
      ensures answer == Fail ==> shadow == old(shadow) && shadowTime == old(shadowTime)
      ensures answer != Fail ==>
        var card := [frame[3], frame[2], frame[1], frame[0]];
        && serialNumber == Serial(card)
        && (Shadow(shadow, shadowTime), answer) == Judge(Shadow(old(shadow), old(shadowTime)), Serial(card), t)
    {
      hide Accepts;
      if |frame| != 5 {
        return Fail;
      }
      if Accepts(frame) {
        answer := Filter([frame[3], frame[2], frame[1], frame[0]], t);
      } else {
        answer := Fail;
      }
    }

    method Filter(card: seq<Byte>, t: int) returns (answer: Answer)
      requires |card| == 4
      modifies this
      ensures serialNumber == Serial(card) && answer != Fail
      ensures (Shadow(shadow, shadowTime), answer) == Judge(Shadow(old(shadow), old(shadowTime)), Serial(card), t)
    {
      serialNumber := Serial(card);
      if t - shadowTime < WINDOW && serialNumber == shadow {
        return Same;
      }
      shadow := serialNumber;
      shadowTime := t;
      answer := Success;
    }
  }

  // ---- over any run of good reads ----

  type Card = c: seq<Byte> | |c| == 4 witness [0, 0, 0, 0]

  datatype Read = Read(card: Card, t: int)

  function Remembered(run: seq<Read>): Shadow {
    if run == [] then Shadow("", 0)
    else
      var last := run[|run| - 1];
      Judge(Remembered(run[..|run| - 1]), Serial(last.card), last.t).0
  }

  // The answer to the last read.
  function LastAnswer(run: seq<Read>): Answer
    requires run != []
  {
    var last := run[|run| - 1];
    Judge(Remembered(run[..|run| - 1]), Serial(last.card), last.t).1
  }

  // The reads that were reported as new.
  function Accepted(run: seq<Read>): seq<Read> {
    if run == [] then []
    else Accepted(run[..|run| - 1]) + if LastAnswer(run) == Success then [run[|run| - 1]] else []
  }

  lemma {:induction false} RemembersLastAccepted(run: seq<Read>)
    ensures Remembered(run) ==
      var a := Accepted(run);
      if a == [] then Shadow("", 0) else Shadow(Serial(a[|a| - 1].card), a[|a| - 1].t)
    ensures run != [] ==> Accepted(run) != []
  {
    if run != [] {
      RemembersLastAccepted(run[..|run| - 1]);
      assert |Serial(run[|run| - 1].card)| == 12;
    }
  }

  // A read counts as the same exactly when its card was the last one accepted, less than six units before.
  ghost predicate JudgedRight(run: seq<Read>)
    requires run != []
  {
    var a, last := Accepted(run[..|run| - 1]), run[|run| - 1];
    LastAnswer(run) ==
      if a != [] && a[|a| - 1].card == last.card && last.t - a[|a| - 1].t < 6 then Same else Success
  }

  ghost predicate Spaced(a: seq<Read>) {
    forall i :: 0 < i < |a| && a[i - 1].card == a[i].card ==> a[i].t - a[i - 1].t >= 6
  }

  lemma {:induction false} AnswersRight(run: seq<Read>)
    requires run != []
    ensures JudgedRight(run)
  {
    hide Serial, Accepted, Remembered;
    var a, last := Accepted(run[..|run| - 1]), run[|run| - 1];
    RemembersLastAccepted(run[..|run| - 1]);
    SerialParts(last.card);
    if a != [] {
      SerialInjective(a[|a| - 1].card, last.card);
    }
  }

  /** Every answer is right, and accepted reads of one card in a row are at least six units apart. */
  lemma {:induction false} FiltersDuplicates(run: seq<Read>)
    ensures run != [] ==> JudgedRight(run)
    ensures Spaced(Accepted(run))
    decreases |run|
  {
    hide LastAnswer;
    if run != [] {
      FiltersDuplicates(run[..|run| - 1]);
      AnswersRight(run);
    }
  }
}

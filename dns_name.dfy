/**
 * The domain-name codec of the DNS resource-record module: names as
 * length-prefixed labels (section 3.1 of RFC 1035) and the two-octet
 * message-compression pointers (section 4.1.4 of RFC 1035).
 *
 * A name is a byte string; the C code's NULL accumulator is the empty
 * sequence (every label that is appended has at least one byte, so "the
 * accumulator is not NULL" and "the accumulator is not empty" coincide).
 */
module DnsName {
  import opened Wrappers
  import opened Buffers

  /** An octet of the wire. */
  type Byte = x: int | 0 <= x < 0x100

  /** The label separator '.' of the textual form. */
  const DOT: Byte := 0x2E

  /**
   * `(marker & 0xC0) == 0xC0`: both high bits set, the marker starts a
   * compression pointer. On an octet this is `marker >= 0xC0`.
   */
  predicate IsPointer(marker: Byte) {
    marker >= 0xC0
  }

  /**
   * `((marker & 0x3F) << 8) | next`, the 14-bit target of a pointer. On
   * octets, `marker & 0x3F` is `marker % 64`, the shift multiplies by 256 and
   * the two parts have no bit in common, so the `|` is a sum.
   */
  function PointerTarget(marker: Byte, next: Byte): (t: nat)
    ensures t < 0x4000
  {
    (marker % 64) * 256 + next
  }

  /**
   * The decoder reaches only octets inside `data` and every pointer it
   * follows leads strictly before the offset at which the current decoding
   * call began, so that the chain of calls ends. `start` is that offset and
   * `pos` the current one. The C decoder checks neither; this is the
   * assumption under which it terminates and stays in bounds.
   */
  predicate Chain(data: seq<Byte>, start: nat, pos: nat)
    decreases start, |data| - pos
  {
    pos < |data| &&
    (data[pos] == 0 ||
     if IsPointer(data[pos]) then
       pos + 1 < |data| &&
       PointerTarget(data[pos], data[pos + 1]) < start &&
       Chain(data, PointerTarget(data[pos], data[pos + 1]), PointerTarget(data[pos], data[pos + 1]))
     else
       pos + 1 + data[pos] <= |data| &&
       Chain(data, start, pos + 1 + data[pos]))
  }

  /** Decoding a name that starts at `offset` terminates in bounds. */
  predicate WellFormedName(data: seq<Byte>, offset: nat) {
    Chain(data, offset, offset)
  }

  /** Append one label to the accumulated name, with a '.' if a label is already there. */
  function AppendLabel(acc: seq<Byte>, part: seq<Byte>): seq<Byte> {
    if |acc| > 0 then acc + [DOT] + part else part
  }

  /**
   * Appending a label keeps the name so far as a prefix, puts a single '.'
   * after it when it is not empty, and ends with the label.
   */
  lemma AppendLabelShape(acc: seq<Byte>, part: seq<Byte>)
    ensures acc <= AppendLabel(acc, part)
    ensures |AppendLabel(acc, part)| == (if |acc| > 0 then |acc| + 1 + |part| else |part|)
    ensures |acc| > 0 ==> AppendLabel(acc, part)[|acc|] == DOT
    ensures AppendLabel(acc, part)[|AppendLabel(acc, part)| - |part|..] == part
  {
    var r := AppendLabel(acc, part);
    if |acc| > 0 {
      assert r[|r| - |part|..] == part;
    }
  }

  /**
   * What the decoder computes from `pos` on, within a call that began at
   * `start`: the accumulated name and the caller's offset afterwards.
   */
  function Walk(data: seq<Byte>, start: nat, pos: nat, acc: seq<Byte>): (r: (seq<Byte>, nat))
    requires Chain(data, start, pos)
    decreases start, |data| - pos
    ensures pos < r.1 <= |data|
  {
    var marker := data[pos];
    if marker == 0 then
      (acc, pos + 1)
    else if IsPointer(marker) then
      var target := PointerTarget(marker, data[pos + 1]);
      ((Walk(data, target, target, acc)).0, pos + 2)
    else
      var next := pos + 1 + marker;
      Walk(data, start, next, AppendLabel(acc, data[pos + 1 .. next]))
  }

  /** The name decoded at `offset` onto `acc`, and the offset just past the name. */
  function DecodeName(data: seq<Byte>, offset: nat, acc: seq<Byte>): (r: (seq<Byte>, nat))
    requires WellFormedName(data, offset)
    ensures offset < r.1 <= |data|
  {
    Walk(data, offset, offset, acc)
  }

  /**
   * tnet_dns_rr_qname_deserialize: read labels until the zero octet, or
   * until a compression pointer, which moves the caller's offset by two and
   * decodes the rest of the name at its target with an offset of its own.
   */
  method QnameDeserialize(data: seq<Byte>, name: seq<Byte>, offset: nat)
    returns (ret: int, name': seq<Byte>, offset': nat)
    requires WellFormedName(data, offset)
    decreases offset
    ensures ret == 0
    ensures (name', offset') == DecodeName(data, offset, name)
  {
    var pos := offset;
    name' := name;
    ghost var goal := DecodeName(data, offset, name);
    // while(*dataPtr), with the pointer case, which returns, taken after the loop
    while data[pos] != 0 && !IsPointer(data[pos])
      invariant pos < |data| && Chain(data, offset, pos)
      invariant Walk(data, offset, pos, name') == goal
      decreases |data| - pos
    {
      var length: nat := data[pos];
      var next := pos + 1 + length;
      LabelAt(data, offset, pos, name', next);
      // tsk_strcat(name, ".") when a label is already there, then tsk_strncat of the label
      name' := AppendLabel(name', data[pos + 1 .. next]);
      pos := next;
    }
    if data[pos] != 0 {
      PointerAt(data, offset, pos, name');
      var target := PointerTarget(data[pos], data[pos + 1]);
      offset' := pos + 2;
      var targetEnd;
      ret, name', targetEnd := QnameDeserialize(data, name', target);
      return;
    }
    WalkStep(data, offset, pos, name');
    offset' := pos + 1;
    ret := 0;
  }

  /** A label octet at `pos`, whose label ends at `next`. */
  lemma LabelAt(data: seq<Byte>, start: nat, pos: nat, acc: seq<Byte>, next: nat)
    requires Chain(data, start, pos) && data[pos] != 0 && !IsPointer(data[pos])
    requires next == pos + 1 + data[pos]
    ensures next < |data| && Chain(data, start, next)
    ensures Walk(data, start, pos, acc) == Walk(data, start, next, AppendLabel(acc, data[pos + 1 .. next]))
  {
    WalkStep(data, start, pos, acc);
  }

  /** A compression pointer at `pos`, to `target`. */
  lemma PointerAt(data: seq<Byte>, start: nat, pos: nat, acc: seq<Byte>)
    requires Chain(data, start, pos) && IsPointer(data[pos])
    ensures pos + 1 < |data|
    ensures PointerTarget(data[pos], data[pos + 1]) < start
    ensures WellFormedName(data, PointerTarget(data[pos], data[pos + 1]))
    ensures Walk(data, start, pos, acc) == (DecodeName(data, PointerTarget(data[pos], data[pos + 1]), acc).0, pos + 2)
  {
    WalkStep(data, start, pos, acc);
  }

  /** One step of the decoder: the octet at `pos` is the terminator, a pointer or a label. */
  lemma WalkStep(data: seq<Byte>, start: nat, pos: nat, acc: seq<Byte>)
    requires Chain(data, start, pos)
    ensures data[pos] == 0 ==> Walk(data, start, pos, acc) == (acc, pos + 1)
    ensures data[pos] != 0 && IsPointer(data[pos]) ==>
      pos + 1 < |data| &&
      PointerTarget(data[pos], data[pos + 1]) < start &&
      WellFormedName(data, PointerTarget(data[pos], data[pos + 1])) &&
      Walk(data, start, pos, acc) ==
        (DecodeName(data, PointerTarget(data[pos], data[pos + 1]), acc).0, pos + 2)
    ensures data[pos] != 0 && !IsPointer(data[pos]) ==>
      pos + 1 + data[pos] <= |data| &&
      Chain(data, start, pos + 1 + data[pos]) &&
      Walk(data, start, pos, acc) ==
        Walk(data, start, pos + 1 + data[pos], AppendLabel(acc, data[pos + 1 .. pos + 1 + data[pos]]))
  {
  }

  // ---------------------------------------------------------------------
  // Encoding

  /** strtok(name, "."): the maximal non-empty runs of bytes other than '.'. */
  function Tokens(s: seq<Byte>): (ls: seq<seq<Byte>>)
    decreases |s|
    ensures forall i :: 0 <= i < |ls| ==> |ls[i]| > 0 && DOT !in ls[i]
  {
    if s == [] then []
    else if s[0] == DOT then Tokens(s[1..])
    else
      var k := TokenLength(s);
      [s[..k]] + Tokens(s[k..])
  }

  /** The length of the run of non-'.' bytes at the front of `s`. */
  function TokenLength(s: seq<Byte>): (k: nat)
    ensures k <= |s|
    ensures forall i :: 0 <= i < k ==> s[i] != DOT
    ensures k < |s| ==> s[k] == DOT
  {
    if s == [] || s[0] == DOT then 0 else 1 + TokenLength(s[1..])
  }

  /** The length octet of a label: strlen stored in a uint8_t, so modulo 256. */
  function LengthOctet(part: seq<Byte>): (o: Byte)
    ensures |part| < 256 ==> o == |part|
  {
    |part| % 256
  }

  /** Each label as its length octet followed by its bytes. */
  function EncodeLabels(ls: seq<seq<Byte>>): seq<Byte> {
    if ls == [] then [] else [LengthOctet(ls[0])] + ls[0] + EncodeLabels(ls[1..])
  }

  /**
   * The bytes tnet_dns_rr_qname_serialize emits: the labels, then the zero
   * octet; a null name is the zero octet alone.
   */
  function EncodeName(qname: Option<seq<Byte>>): (r: seq<Byte>)
    ensures |r| >= 1 && r[|r| - 1] == 0
    ensures qname.None? ==> r == [0]
  {
    (if qname.Some? then EncodeLabels(Tokens(qname.value)) else []) + [0]
  }

  /**
   * tnet_dns_rr_qname_serialize: for each label strtok finds, append its
   * length octet and its bytes; then append the terminating zero octet.
   */
  method QnameSerialize(qname: Option<seq<Byte>>, output: Buffer<Byte>) returns (ret: int)
    modifies output
    ensures ret == 0
    ensures output.data == old(output.data) + EncodeName(qname)
  {
    if qname.Some? {
      var labels := Tokens(qname.value);
      var i := 0;
      while i < |labels|
        invariant i <= |labels|
        invariant output.data == old(output.data) + EncodeLabels(labels[..i])
      {
        var part := labels[i];
        var length := LengthOctet(part);
        output.Append([length]);
        output.Append(part);
        EncodeLabelsSnoc(labels[..i], part);
        assert labels[..i + 1] == labels[..i] + [part];
        i := i + 1;
      }
      assert labels[..|labels|] == labels;
    }
    output.Append([0]);
    ret := 0;
  }

  /** Encoding one more label appends its length octet and its bytes. */
  lemma {:induction false} EncodeLabelsSnoc(ls: seq<seq<Byte>>, l: seq<Byte>)
    ensures EncodeLabels(ls + [l]) == EncodeLabels(ls) + [LengthOctet(l)] + l
    decreases |ls|
  {
    if ls == [] {
      assert [l][1..] == [];
    } else {
      assert (ls + [l])[1..] == ls[1..] + [l];
      EncodeLabelsSnoc(ls[1..], l);
    }
  }

  // ---------------------------------------------------------------------
  // Properties

  /** Labels whose length octet reads back as a label: 1 to 63 bytes each, any bytes. */
  predicate ValidLabels(ls: seq<seq<Byte>>) {
    forall i :: 0 <= i < |ls| ==> 0 < |ls[i]| < 64
  }

  /** The textual form: labels joined by '.', no leading dot. */
  function Join(ls: seq<seq<Byte>>): seq<Byte> {
    if ls == [] then []
    else if |ls| == 1 then ls[0]
    else ls[0] + [DOT] + Join(ls[1..])
  }

  /** Appending the labels one at a time, as the decoder does. */
  function AppendAll(acc: seq<Byte>, ls: seq<seq<Byte>>): seq<Byte>
    decreases |ls|
  {
    if ls == [] then acc else AppendAll(AppendLabel(acc, ls[0]), ls[1..])
  }

  /** A name that its labels determine: labels of 1 to 63 bytes joined by '.'. */
  predicate CanonicalName(n: seq<Byte>) {
    Join(Tokens(n)) == n && forall i :: 0 <= i < |Tokens(n)| ==> |Tokens(n)[i]| < 64
  }

  /** The length octet of a label of 1 to 63 bytes is its length, neither the terminator nor a pointer. */
  lemma ShortLengthOctet(l: seq<Byte>)
    requires 0 < |l| < 64
    ensures LengthOctet(l) != 0 && !IsPointer(LengthOctet(l))
    ensures LengthOctet(l) == |l|
  {
  }

  /**
   * Plain labels at `pos` are consumed one after the other: the decoding is
   * well formed there exactly when it is well formed after them, and each
   * label is appended to the accumulated name.
   */
  lemma WalkLabels(data: seq<Byte>, start: nat, pos: nat, ls: seq<seq<Byte>>, acc: seq<Byte>)
    requires ValidLabels(ls)
    requires pos + |EncodeLabels(ls)| <= |data|
    requires data[pos .. pos + |EncodeLabels(ls)|] == EncodeLabels(ls)
    ensures Chain(data, start, pos) <==> Chain(data, start, pos + |EncodeLabels(ls)|)
    ensures Chain(data, start, pos) ==>
      Walk(data, start, pos, acc) == Walk(data, start, pos + |EncodeLabels(ls)|, AppendAll(acc, ls))
  {
    var end := pos + |EncodeLabels(ls)|;
    EncodesOfWindow(data, pos, ls);
    ChainLabels(data, start, pos, ls, end);
    if Chain(data, start, pos) {
      WalkLabelsFrom(data, start, pos, ls, acc, end);
    }
  }

  /**
   * The labels `ls` are laid out at `pos`, each as its length octet and its
   * bytes. This is the layout `EncodeLabels` builds, read in place: the
   * walk over a message steps from label to label, and this form lets each
   * step speak of one label at an offset instead of slicing the encoding of
   * the whole list (`EncodesOfWindow` connects the two).
   */
  predicate Encodes(data: seq<Byte>, pos: nat, ls: seq<seq<Byte>>)
    decreases |ls|
  {
    ls == [] ||
    (0 < |ls[0]| < 64 && pos + 1 + |ls[0]| <= |data| && data[pos] == |ls[0]| &&
     data[pos + 1 .. pos + 1 + |ls[0]|] == ls[0] &&
     Encodes(data, pos + 1 + |ls[0]|, ls[1..]))
  }

  /** The number of octets the labels take on the wire: `|EncodeLabels(ls)|` for labels under 256 bytes. */
  function Width(ls: seq<seq<Byte>>): nat {
    if ls == [] then 0 else 1 + |ls[0]| + Width(ls[1..])
  }

  /** A window holding the encoding of valid labels lays them out one after the other. */
  lemma {:induction false} EncodesOfWindow(data: seq<Byte>, pos: nat, ls: seq<seq<Byte>>)
    requires ValidLabels(ls)
    requires pos + |EncodeLabels(ls)| <= |data|
    requires data[pos .. pos + |EncodeLabels(ls)|] == EncodeLabels(ls)
    ensures Encodes(data, pos, ls) && Width(ls) == |EncodeLabels(ls)|
    decreases |ls|
  {
    if ls != [] {
      FirstLabel(data, pos, ls);
      EncodesOfWindow(data, pos + 1 + |ls[0]|, ls[1..]);
    }
  }

  /** Labels laid out from `pos` to `end` neither add nor remove a way to go wrong. */
  lemma {:induction false} ChainLabels(data: seq<Byte>, start: nat, pos: nat, ls: seq<seq<Byte>>, end: nat)
    requires Encodes(data, pos, ls) && end == pos + Width(ls)
    ensures Chain(data, start, pos) <==> Chain(data, start, end)
    decreases |ls|
  {
    if ls != [] {
      LabelStep(data, start, pos, []);
      ChainLabels(data, start, pos + 1 + |ls[0]|, ls[1..], end);
    }
  }

  /** The walk over labels laid out from `pos` to `end` appends them one at a time. */
  lemma {:induction false} WalkLabelsFrom(data: seq<Byte>, start: nat, pos: nat, ls: seq<seq<Byte>>, acc: seq<Byte>, end: nat)
    requires Encodes(data, pos, ls) && end == pos + Width(ls)
    requires Chain(data, start, pos) && Chain(data, start, end)
    ensures Walk(data, start, pos, acc) == Walk(data, start, end, AppendAll(acc, ls))
    decreases |ls|
  {
    if ls != [] {
      var l := ls[0];
      var next := pos + 1 + |l|;
      var acc1 := AppendLabel(acc, l);
      EncodesHead(data, pos, ls, end);
      KnownLabelStep(data, start, pos, acc, l);
      WalkLabelsFrom(data, start, next, ls[1..], acc1, end);
      assert AppendAll(acc, ls) == AppendAll(acc1, ls[1..]);
    }
  }

  /** The first label of an encoding at `pos`, and the rest of the encoding after it. */
  lemma EncodesHead(data: seq<Byte>, pos: nat, ls: seq<seq<Byte>>, end: nat)
    requires Encodes(data, pos, ls) && ls != [] && end == pos + Width(ls)
    ensures 0 < |ls[0]| < 64 && pos + 1 + |ls[0]| <= |data| && data[pos] == |ls[0]|
    ensures data[pos + 1 .. pos + 1 + |ls[0]|] == ls[0]
    ensures Encodes(data, pos + 1 + |ls[0]|, ls[1..]) && end == pos + 1 + |ls[0]| + Width(ls[1..])
  {
  }

  /** LabelStep, for a label `l` known to sit at `pos`. */
  lemma KnownLabelStep(data: seq<Byte>, start: nat, pos: nat, acc: seq<Byte>, l: seq<Byte>)
    requires 0 < |l| < 64 && pos + 1 + |l| <= |data| && data[pos] == |l|
    requires data[pos + 1 .. pos + 1 + |l|] == l
    requires Chain(data, start, pos)
    ensures Chain(data, start, pos + 1 + |l|)
    ensures Walk(data, start, pos, acc) == Walk(data, start, pos + 1 + |l|, AppendLabel(acc, l))
  {
    LabelStep(data, start, pos, acc);
  }

  /** The first encoded label of `ls` at `pos`: its length octet, its bytes, and the encoding of the others after it. */
  lemma FirstLabel(data: seq<Byte>, pos: nat, ls: seq<seq<Byte>>)
    requires ValidLabels(ls) && ls != []
    requires pos + |EncodeLabels(ls)| <= |data|
    requires data[pos .. pos + |EncodeLabels(ls)|] == EncodeLabels(ls)
    ensures data[pos] == |ls[0]| && data[pos] != 0 && !IsPointer(data[pos])
    ensures data[pos + 1 .. pos + 1 + |ls[0]|] == ls[0]
    ensures ValidLabels(ls[1..])
    ensures pos + 1 + |ls[0]| + |EncodeLabels(ls[1..])| == pos + |EncodeLabels(ls)|
    ensures data[pos + 1 + |ls[0]| .. pos + 1 + |ls[0]| + |EncodeLabels(ls[1..])|] == EncodeLabels(ls[1..])
  {
    var l, rest, e := ls[0], EncodeLabels(ls[1..]), EncodeLabels(ls);
    assert e == [LengthOctet(l)] + l + rest;
    ShortLengthOctet(l);
    LabelWindow(data, pos, e, LengthOctet(l), l, rest);
    ValidLabelsTail(ls);
  }

  /** The parts of a window `e` that holds a length octet, a label and what follows. */
  lemma LabelWindow(data: seq<Byte>, pos: nat, e: seq<Byte>, octet: Byte, l: seq<Byte>, rest: seq<Byte>)
    requires pos + |e| <= |data| && data[pos .. pos + |e|] == e
    requires e == [octet] + l + rest
    ensures data[pos] == octet
    ensures data[pos + 1 .. pos + 1 + |l|] == l
    ensures pos + 1 + |l| + |rest| == pos + |e|
    ensures data[pos + 1 + |l| .. pos + 1 + |l| + |rest|] == rest
  {
    assert data[pos] == data[pos .. pos + |e|][0];
    SliceOfWindow(data, pos, e, 1, 1 + |l|);
    assert e[1 .. 1 + |l|] == l;
    SliceOfWindow(data, pos, e, 1 + |l|, |e|);
    assert e[1 + |l| ..] == rest;
  }

  /** The labels after the first are valid too. */
  lemma ValidLabelsTail(ls: seq<seq<Byte>>)
    requires ValidLabels(ls) && ls != []
    ensures ValidLabels(ls[1..])
  {
    forall i | 0 <= i < |ls[1..]| ensures 0 < |ls[1..][i]| < 64 {
      assert ls[1..][i] == ls[i + 1];
    }
  }

  /** A label octet at `pos` is consumed together with the label it announces. */
  lemma LabelStep(data: seq<Byte>, start: nat, pos: nat, acc: seq<Byte>)
    requires pos < |data| && data[pos] != 0 && !IsPointer(data[pos])
    requires pos + 1 + data[pos] <= |data|
    ensures Chain(data, start, pos) <==> Chain(data, start, pos + 1 + data[pos])
    ensures Chain(data, start, pos) ==>
      Walk(data, start, pos, acc) ==
        Walk(data, start, pos + 1 + data[pos], AppendLabel(acc, data[pos + 1 .. pos + 1 + data[pos]]))
  {
  }

  /** A part of a window of `data` is the same part of what the window holds. */
  lemma SliceOfWindow(data: seq<Byte>, pos: nat, e: seq<Byte>, i: nat, j: nat)
    requires pos + |e| <= |data| && data[pos .. pos + |e|] == e
    requires i <= j <= |e|
    ensures data[pos + i .. pos + j] == e[i .. j]
  {
    forall k | 0 <= k < j - i ensures data[pos + i .. pos + j][k] == e[i .. j][k] {
      assert data[pos + i .. pos + j][k] == data[pos + i + k] == data[pos .. pos + |e|][i + k];
    }
  }

  /** Appending labels one at a time, with a '.' between them, appends their join. */
  lemma {:induction false} AppendAllJoin(acc: seq<Byte>, ls: seq<seq<Byte>>)
    requires ls != []
    requires forall i :: 0 <= i < |ls| ==> |ls[i]| > 0
    ensures AppendAll(acc, ls) == AppendLabel(acc, Join(ls))
    decreases |ls|
  {
    if |ls| > 1 {
      var l, rest := ls[0], ls[1..];
      var acc1 := AppendLabel(acc, l);
      var j := Join(rest);
      AppendAllJoin(acc1, rest);
      assert AppendAll(acc, ls) == AppendAll(acc1, rest);
      assert Join(ls) == l + [DOT] + j;
      assert AppendLabel(acc1, j) == acc1 + [DOT] + j;
      if |acc| > 0 {
        assert acc1 == acc + [DOT] + l;
        assert AppendLabel(acc, Join(ls)) == acc + [DOT] + (l + [DOT] + j);
        assert acc + [DOT] + l + [DOT] + j == acc + [DOT] + (l + [DOT] + j);
      }
    }
  }

  /**
   * A name spelled out as plain labels ends with the zero octet: decoding
   * yields the labels joined by '.', appended to the accumulated name, and
   * the offset moves past every length octet, every label and the
   * terminator.
   */
  lemma PlainName(data: seq<Byte>, pos: nat, ls: seq<seq<Byte>>)
    requires ValidLabels(ls)
    requires pos + |EncodeLabels(ls)| < |data|
    requires data[pos .. pos + |EncodeLabels(ls)| + 1] == EncodeLabels(ls) + [0]
    ensures WellFormedName(data, pos)
    ensures DecodeName(data, pos, []) == (Join(ls), pos + |EncodeLabels(ls)| + 1)
  {
    var e := EncodeLabels(ls);
    PlainNameAt(data, pos, ls, e, pos + |e|);
  }

  /** PlainName, with the encoding `e` of the labels and its end `end` named. */
  lemma PlainNameAt(data: seq<Byte>, pos: nat, ls: seq<seq<Byte>>, e: seq<Byte>, end: nat)
    requires ValidLabels(ls) && e == EncodeLabels(ls) && end == pos + |e|
    requires end < |data| && data[pos .. end + 1] == e + [0]
    ensures WellFormedName(data, pos) && DecodeName(data, pos, []) == (Join(ls), end + 1)
  {
    var name := AppendAll([], ls);
    LabelsThenZero(data, pos, ls, end, name);
    JoinByAppending(ls);
  }

  /** The walk over the labels from `pos` to `end`, and the zero octet at `end`. */
  lemma LabelsThenZero(data: seq<Byte>, pos: nat, ls: seq<seq<Byte>>, end: nat, name: seq<Byte>)
    requires ValidLabels(ls) && end == pos + |EncodeLabels(ls)|
    requires end < |data| && data[pos .. end + 1] == EncodeLabels(ls) + [0]
    requires name == AppendAll([], ls)
    ensures Chain(data, pos, pos) <==> Chain(data, pos, end)
    ensures Chain(data, pos, pos) ==> Walk(data, pos, pos, []) == Walk(data, pos, end, name)
    ensures Chain(data, pos, end) && Walk(data, pos, end, name) == (name, end + 1)
  {
    WindowThenZero(data, pos, EncodeLabels(ls), end);
    WalkLabels(data, pos, pos, ls, []);
    ZeroAt(data, pos, end, name);
  }

  /** A window holding `e` and a zero octet holds `e`, then the zero octet. */
  lemma WindowThenZero(data: seq<Byte>, pos: nat, e: seq<Byte>, end: nat)
    requires end == pos + |e| && end < |data| && data[pos .. end + 1] == e + [0]
    ensures data[pos .. pos + |e|] == e && data[end] == 0
  {
    SliceOfWindow(data, pos, e + [0], 0, |e|);
    assert (e + [0])[0 .. |e|] == e;
    assert data[end] == data[pos .. end + 1][|e|];
  }

  /** The zero octet at `pos` ends the name. */
  lemma ZeroAt(data: seq<Byte>, start: nat, pos: nat, acc: seq<Byte>)
    requires pos < |data| && data[pos] == 0
    ensures Chain(data, start, pos) && Walk(data, start, pos, acc) == (acc, pos + 1)
  {
  }

  /** Appending the labels one by one onto nothing spells out their join. */
  lemma JoinByAppending(ls: seq<seq<Byte>>)
    requires forall i :: 0 <= i < |ls| ==> |ls[i]| > 0
    ensures AppendAll([], ls) == Join(ls)
  {
    if ls != [] {
      AppendAllJoin([], ls);
    }
  }

  /**
   * Labels followed by a compression pointer: the caller's offset ends
   * exactly two octets past the pointer's first octet, no terminator is
   * consumed, and the rest of the name is the name decoded at the target,
   * onto the labels accumulated so far.
   */
  lemma LabelsThenPointer(data: seq<Byte>, pos: nat, ls: seq<seq<Byte>>, acc: seq<Byte>)
    requires ValidLabels(ls)
    requires pos + |EncodeLabels(ls)| + 1 < |data|
    requires data[pos .. pos + |EncodeLabels(ls)|] == EncodeLabels(ls)
    requires IsPointer(data[pos + |EncodeLabels(ls)|])
    requires PointerTarget(data[pos + |EncodeLabels(ls)|], data[pos + |EncodeLabels(ls)| + 1]) < pos
    requires WellFormedName(data, PointerTarget(data[pos + |EncodeLabels(ls)|], data[pos + |EncodeLabels(ls)| + 1]))
    ensures WellFormedName(data, pos)
    ensures DecodeName(data, pos, acc) ==
      ((DecodeName(data, PointerTarget(data[pos + |EncodeLabels(ls)|], data[pos + |EncodeLabels(ls)| + 1]),
                   AppendAll(acc, ls))).0,
       pos + |EncodeLabels(ls)| + 2)
  {
    var end := pos + |EncodeLabels(ls)|;
    assert Chain(data, pos, end);
    WalkLabels(data, pos, pos, ls, acc);
    PointerAt(data, pos, end, AppendAll(acc, ls));
  }

  /**
   * Round trip: decoding what the serializer emits for a name of labels of
   * 1 to 63 bytes gives back that name, wherever the bytes sit in the
   * message, and the decoder's offset ends just past the emitted bytes.
   */
  lemma NameRoundTrip(n: seq<Byte>, pre: seq<Byte>, post: seq<Byte>)
    requires CanonicalName(n)
    ensures WellFormedName(pre + EncodeName(Some(n)) + post, |pre|)
    ensures DecodeName(pre + EncodeName(Some(n)) + post, |pre|, []) == (n, |pre| + |EncodeName(Some(n))|)
  {
    var ls := Tokens(n);
    var data := pre + EncodeName(Some(n)) + post;
    assert EncodeName(Some(n)) == EncodeLabels(ls) + [0];
    assert data[|pre| .. |pre| + |EncodeLabels(ls)| + 1] == EncodeLabels(ls) + [0];
    PlainName(data, |pre|, ls);
  }

  /** strtok recovers the labels that were joined: encoding is injective on label lists. */
  lemma {:induction false} TokensOfJoin(ls: seq<seq<Byte>>)
    requires forall i :: 0 <= i < |ls| ==> |ls[i]| > 0 && DOT !in ls[i]
    ensures Tokens(Join(ls)) == ls
    decreases |ls|
  {
    if ls != [] {
      var l := ls[0];
      if |ls| == 1 {
        TokensCons(l, []);
        assert l + [] == l;
      } else {
        var rest := ls[1..];
        var j := Join(rest);
        assert Join(ls) == l + ([DOT] + j);
        TokensCons(l, [DOT] + j);
        TokensDot(j);
        TokensOfJoin(rest);
        assert ls == [l] + rest;
      }
    }
  }

  /** strtok takes a run of non-'.' bytes that ends the string or a '.' as one token. */
  lemma TokensCons(l: seq<Byte>, rest: seq<Byte>)
    requires l != [] && DOT !in l
    requires rest == [] || rest[0] == DOT
    ensures Tokens(l + rest) == [l] + Tokens(rest)
  {
    var s := l + rest;
    TokenLengthOf(l, rest);
    assert s[..|l|] == l;
    assert s[|l|..] == rest;
  }

  /** strtok skips a '.'. */
  lemma TokensDot(j: seq<Byte>)
    ensures Tokens([DOT] + j) == Tokens(j)
  {
    assert ([DOT] + j)[1..] == j;
  }

  /** The run before the first '.' of `l + rest` is `l`. */
  lemma {:induction false} TokenLengthOf(l: seq<Byte>, rest: seq<Byte>)
    requires DOT !in l
    requires rest == [] || rest[0] == DOT
    ensures TokenLength(l + rest) == |l|
    decreases |l|
  {
    if l != [] {
      assert (l + rest)[1..] == l[1..] + rest;
      TokenLengthOf(l[1..], rest);
    }
  }

  /** A single label then the root: 3 "www" 0 decodes to "www", and the offset moves five octets. */
  lemma WwwExample()
    ensures WellFormedName([3, 0x77, 0x77, 0x77, 0], 0)
    ensures DecodeName([3, 0x77, 0x77, 0x77, 0], 0, []) == ([0x77, 0x77, 0x77], 5)
  {
    var data: seq<Byte> := [3, 0x77, 0x77, 0x77, 0];
    var www: seq<Byte> := [0x77, 0x77, 0x77];
    LabelAt(data, 0, 0, [], 4);
    assert data[1 .. 4] == www;
    ZeroAt(data, 0, 4, www);
  }

  /**
   * A pointer to its own position, or to any later one, is not a
   * well-formed name: the endless recursion the C code would enter on a
   * self pointer is excluded.
   */
  lemma SelfOrForwardPointerRejected(data: seq<Byte>, pos: nat)
    requires pos + 1 < |data| && IsPointer(data[pos])
    requires PointerTarget(data[pos], data[pos + 1]) >= pos
    ensures !WellFormedName(data, pos)
  {
  }

  /** A cycle of two pointers, at `p1` to `p2` and at `p2` back to `p1`, is not a well-formed name. */
  lemma {:induction false} PointerCycleRejected(data: seq<Byte>, p1: nat, p2: nat)
    requires p1 + 1 < |data| && IsPointer(data[p1]) && PointerTarget(data[p1], data[p1 + 1]) == p2
    requires p2 + 1 < |data| && IsPointer(data[p2]) && PointerTarget(data[p2], data[p2 + 1]) == p1
    ensures !WellFormedName(data, p1)
  {
    if p2 < p1 {
      // the pointer at p2 leads forward, to p1
      SelfOrForwardPointerRejected(data, p2);
    } else {
      SelfOrForwardPointerRejected(data, p1);
    }
  }

  /**
   * Labels followed by a pointer to the name's own start or later: the
   * loop the C code would enter after some labels is excluded too.
   */
  lemma LabelsThenBadPointer(data: seq<Byte>, pos: nat, ls: seq<seq<Byte>>)
    requires ValidLabels(ls)
    requires pos + |EncodeLabels(ls)| + 1 < |data|
    requires data[pos .. pos + |EncodeLabels(ls)|] == EncodeLabels(ls)
    requires IsPointer(data[pos + |EncodeLabels(ls)|])
    requires PointerTarget(data[pos + |EncodeLabels(ls)|], data[pos + |EncodeLabels(ls)| + 1]) >= pos
    ensures !WellFormedName(data, pos)
  {
    WalkLabels(data, pos, pos, ls, []);
  }

  /** The smallest cycle: a pointer at 2 to the pointer at 0, which leads back to 2. */
  lemma TwoPointerCycleExample()
    ensures !WellFormedName([0xC0, 0x02, 0xC0, 0x00], 0)
    ensures !WellFormedName([0xC0, 0x02, 0xC0, 0x00], 2)
  {
    PointerCycleRejected([0xC0, 0x02, 0xC0, 0x00], 2, 0);
  }

  /** The example of the serializer's comment: "doubango.com" becomes 8doubango3com and a zero octet. */
  lemma DoubangoExample()
    ensures EncodeName(Some([0x64, 0x6F, 0x75, 0x62, 0x61, 0x6E, 0x67, 0x6F, DOT, 0x63, 0x6F, 0x6D])) ==
      [8, 0x64, 0x6F, 0x75, 0x62, 0x61, 0x6E, 0x67, 0x6F, 3, 0x63, 0x6F, 0x6D, 0]
  {
    var doubango: seq<Byte> := [0x64, 0x6F, 0x75, 0x62, 0x61, 0x6E, 0x67, 0x6F];
    var com: seq<Byte> := [0x63, 0x6F, 0x6D];
    var name: seq<Byte> := [0x64, 0x6F, 0x75, 0x62, 0x61, 0x6E, 0x67, 0x6F, DOT, 0x63, 0x6F, 0x6D];
    DoubangoTokens();
    EncodeTwoLabels(doubango, com);
    assert LengthOctet(doubango) == 8 && LengthOctet(com) == 3;
    var e := [8] + doubango + [3] + com;
    assert EncodeName(Some(name)) == e + [0];
  }

  /** The encoding of two labels. */
  lemma EncodeTwoLabels(a: seq<Byte>, b: seq<Byte>)
    ensures EncodeLabels([a, b]) == [LengthOctet(a)] + a + [LengthOctet(b)] + b
  {
    assert [a, b][1..] == [b];
    assert [b][1..] == [];
    assert EncodeLabels([b]) == [LengthOctet(b)] + b;
  }

  /** strtok splits "doubango.com" into "doubango" and "com". */
  lemma DoubangoTokens()
    ensures Tokens([0x64, 0x6F, 0x75, 0x62, 0x61, 0x6E, 0x67, 0x6F, DOT, 0x63, 0x6F, 0x6D]) ==
      [[0x64, 0x6F, 0x75, 0x62, 0x61, 0x6E, 0x67, 0x6F], [0x63, 0x6F, 0x6D]]
  {
    var doubango: seq<Byte> := [0x64, 0x6F, 0x75, 0x62, 0x61, 0x6E, 0x67, 0x6F];
    var com: seq<Byte> := [0x63, 0x6F, 0x6D];
    var name: seq<Byte> := [0x64, 0x6F, 0x75, 0x62, 0x61, 0x6E, 0x67, 0x6F, DOT, 0x63, 0x6F, 0x6D];
    assert name == doubango + [DOT] + com;
    assert DOT !in doubango && DOT !in com;
    assert Join([com]) == com;
    assert Join([doubango, com]) == doubango + [DOT] + com;
    TokensOfJoin([doubango, com]);
  }
}

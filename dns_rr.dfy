/**
 * The resource-record part of the DNS module: the init/deinit lifecycle
 * guard of a record, the <character-string> decoder (section 3.3 of
 * RFC 1035) and the codec of the fixed record header TYPE, CLASS, TTL and
 * RDLENGTH (section 3.2.1 of RFC 1035), all in network byte order.
 */
module DnsRr {
  import opened Wrappers
  import opened Buffers
  import opened DnsName

  type U16 = x: int | 0 <= x < 0x1_0000
  type U32 = x: int | 0 <= x < 0x1_0000_0000

  // ---------------------------------------------------------------------
  // Network byte order

  /** The two octets of `v`, most significant first (htons). */
  function U16Bytes(v: U16): (b: seq<Byte>)
    ensures |b| == 2
  {
    [v / 0x100, v % 0x100]
  }

  /** The four octets of `v`, most significant first (htonl). */
  function U32Bytes(v: U32): (b: seq<Byte>)
    ensures |b| == 4
  {
    U16Bytes(v / 0x1_0000) + U16Bytes(v % 0x1_0000)
  }

  /** ntohs of the two octets at `pos`: the value whose htons bytes they are. */
  function ReadU16(data: seq<Byte>, pos: nat): (v: U16)
    requires pos + 2 <= |data|
    ensures U16Bytes(v) == data[pos .. pos + 2]
  {
    var hi, lo := data[pos] as int, data[pos + 1] as int;
    SplitU16(hi, lo);
    hi * 0x100 + lo
  }

  /** A value built from a high and a low octet splits back into them. */
  lemma SplitU16(hi: Byte, lo: Byte)
    ensures 0 <= hi * 0x100 + lo < 0x1_0000
    ensures (hi * 0x100 + lo) / 0x100 == hi && (hi * 0x100 + lo) % 0x100 == lo
  {
  }

  /** ntohl of the four octets at `pos`: the value whose htonl bytes they are. */
  function ReadU32(data: seq<Byte>, pos: nat): (v: U32)
    requires pos + 4 <= |data|
    ensures U32Bytes(v) == data[pos .. pos + 4]
  {
    var hi, lo := ReadU16(data, pos), ReadU16(data, pos + 2);
    SplitU32(hi, lo);
    assert data[pos .. pos + 4] == data[pos .. pos + 2] + data[pos + 2 .. pos + 4];
    hi * 0x1_0000 + lo
  }

  /** A value built from a high and a low half splits back into them. */
  lemma SplitU32(hi: U16, lo: U16)
    ensures 0 <= hi * 0x1_0000 + lo < 0x1_0000_0000
    ensures (hi * 0x1_0000 + lo) / 0x1_0000 == hi && (hi * 0x1_0000 + lo) % 0x1_0000 == lo
  {
  }

  /** Reading back the two octets written for `v` gives `v`, wherever they sit. */
  lemma U16RoundTrip(v: U16, pre: seq<Byte>, post: seq<Byte>)
    ensures ReadU16(pre + U16Bytes(v) + post, |pre|) == v
  {
    var data := pre + U16Bytes(v) + post;
    assert data[|pre|] == v / 0x100 && data[|pre| + 1] == v % 0x100;
  }

  /** Reading back the four octets written for `v` gives `v`, wherever they sit. */
  lemma U32RoundTrip(v: U32, pre: seq<Byte>, post: seq<Byte>)
    ensures ReadU32(pre + U32Bytes(v) + post, |pre|) == v
  {
    var hi := U16Bytes(v / 0x1_0000);
    var lo := U16Bytes(v % 0x1_0000);
    assert pre + U32Bytes(v) + post == pre + hi + (lo + post);
    U16RoundTrip(v / 0x1_0000, pre, lo + post);
    assert pre + U32Bytes(v) + post == (pre + hi) + lo + post;
    U16RoundTrip(v % 0x1_0000, pre + hi, post);
  }

  // ---------------------------------------------------------------------
  // Record types

  /** The record types the decoder dispatches on (tnet_dns_qtype_t). */
  datatype QType = A | NS | CName | SOA | PTR | MX | TXT | AAAA | SRV | NAPTR | OPT

  /** The TYPE code of each record type, as assigned by IANA. */
  function QTypeCode(t: QType): U16 {
    match t
    case A => 1
    case NS => 2
    case CName => 5
    case SOA => 6
    case PTR => 12
    case MX => 15
    case TXT => 16
    case AAAA => 28
    case SRV => 33
    case NAPTR => 35
    case OPT => 41
  }

  /** The record type a TYPE code names, or None for a code the decoder does not implement. */
  function QTypeOf(code: U16): (t: Option<QType>)
    ensures t.Some? ==> QTypeCode(t.value) == code
    ensures t.None? ==> forall q: QType :: QTypeCode(q) != code
  {
    if code == 1 then Some(A)
    else if code == 2 then Some(NS)
    else if code == 5 then Some(CName)
    else if code == 6 then Some(SOA)
    else if code == 12 then Some(PTR)
    else if code == 15 then Some(MX)
    else if code == 16 then Some(TXT)
    else if code == 28 then Some(AAAA)
    else if code == 33 then Some(SRV)
    else if code == 35 then Some(NAPTR)
    else if code == 41 then Some(OPT)
    else None
  }

  /** Every record type is recognised from its own code. */
  lemma QTypeOfCode(t: QType)
    ensures QTypeOf(QTypeCode(t)) == Some(t)
  {
  }

  /**
   * The record the decoder builds. The per-type constructors
   * (TNET_DNS_A_CREATE and the others) are not part of this model: `Rr`
   * records the arguments such a constructor is called with, the whole
   * message and the offset of RDATA included; `Opt` is TNET_DNS_OPT_CREATE,
   * which is given only the payload size.
   */
  datatype Record =
    | Rr(qtype: QType, name: seq<Byte>, qclass: U16, ttl: U32, rdlength: U16,
         message: seq<Byte>, rdataOffset: nat)
    | Opt(payloadSize: U16)

  // ---------------------------------------------------------------------
  // The record object and its lifecycle

  /** tnet_dns_rr_t: the fields every record carries. */
  class ResourceRecord {
    var initialized: bool
    var qtype: U16
    var qclass: U16
    var ttl: U32
    var rdlength: U16
    var name: Option<seq<Byte>>
    var rpdata: Option<seq<Byte>>

    /** A freshly allocated record: zeroed memory, so not yet initialized. */
    constructor ()
      ensures !initialized && qtype == 0 && qclass == 0 && ttl == 0 && rdlength == 0
      ensures name == None && rpdata == None
    {
      initialized := false;
      qtype := 0;
      qclass := 0;
      ttl := 0;
      rdlength := 0;
      name := None;
      rpdata := None;
    }

    /** The record's fields as one value. */
    function State(): RrState
      reads this
    {
      RrState(initialized, qtype, qclass, ttl, rdlength, name, rpdata)
    }
  }

  /** A snapshot of a record's fields. */
  datatype RrState = RrState(initialized: bool, qtype: U16, qclass: U16, ttl: U32, rdlength: U16,
                             name: Option<seq<Byte>>, rpdata: Option<seq<Byte>>)

  /** tnet_dns_rr_init on a record in state `s`: the return code and the new state. */
  function InitStep(s: RrState, qtype: U16, qclass: U16): (r: (int, RrState))
    ensures r.1.initialized
    ensures r.0 == 0 <==> !s.initialized
    ensures r.0 != 0 ==> r.0 == -2 && r.1 == s
    ensures r.0 == 0 ==> r.1.qtype == qtype && r.1.qclass == qclass
  {
    if s.initialized then (-2, s)
    else (0, s.(initialized := true, qtype := qtype, qclass := qclass))
  }

  /** tnet_dns_rr_deinit on a record in state `s`: the return code and the new state. */
  function DeinitStep(s: RrState): (r: (int, RrState))
    ensures !r.1.initialized
    ensures r.0 == 0 <==> s.initialized
    ensures r.0 != 0 ==> r.0 == -2 && r.1 == s
    ensures r.0 == 0 ==> r.1.name.None? && r.1.rpdata.None?
  {
    if s.initialized then (0, s.(initialized := false, name := None, rpdata := None))
    else (-2, s)
  }

  /**
   * tnet_dns_rr_init: -1 for a null record; -2, and nothing changed, for a
   * record already initialized; otherwise set TYPE and CLASS, mark the
   * record initialized and return 0.
   */
  method Init(rr: ResourceRecord?, qtype: U16, qclass: U16) returns (ret: int)
    modifies rr
    ensures rr == null ==> ret == -1
    ensures rr != null ==> (ret, rr.State()) == InitStep(old(rr.State()), qtype, qclass)
  {
    if rr == null {
      return -1;
    }
    if !rr.initialized {
      rr.qtype := qtype;
      rr.qclass := qclass;
      rr.initialized := true;
      return 0;
    }
    return -2;
  }

  /**
   * tnet_dns_rr_deinit: -1 for a null record; -2, and nothing changed, for
   * a record not initialized; otherwise release the name and the RDATA,
   * clear the flag and return 0.
   */
  method Deinit(rr: ResourceRecord?) returns (ret: int)
    modifies rr
    ensures rr == null ==> ret == -1
    ensures rr != null ==> (ret, rr.State()) == DeinitStep(old(rr.State()))
  {
    if rr == null {
      return -1;
    }
    if rr.initialized {
      rr.name := None;
      rr.rpdata := None;
      rr.initialized := false;
      return 0;
    }
    return -2;
  }

  /**
   * The lifecycle has two states. Init succeeds exactly on an uninitialized
   * record and Deinit exactly on an initialized one; a refused call changes
   * nothing; each successful call moves the record to the other state.
   */
  lemma Lifecycle(s: RrState, qtype: U16, qclass: U16)
    ensures InitStep(s, qtype, qclass).0 == 0 <==> !s.initialized
    ensures DeinitStep(s).0 == 0 <==> s.initialized
    ensures InitStep(s, qtype, qclass).0 != 0 ==> InitStep(s, qtype, qclass) == (-2, s)
    ensures DeinitStep(s).0 != 0 ==> DeinitStep(s) == (-2, s)
    ensures InitStep(s, qtype, qclass).1.initialized && !DeinitStep(s).1.initialized
  {
  }

  /**
   * Init then Deinit on an uninitialized record both succeed and leave it
   * uninitialized with TYPE and CLASS set and nothing held; a second Init
   * in a row is refused.
   */
  lemma InitThenDeinit(s: RrState, qtype: U16, qclass: U16)
    requires !s.initialized
    ensures var (r1, s1) := InitStep(s, qtype, qclass);
      var (r2, s2) := DeinitStep(s1);
      r1 == 0 && r2 == 0 && !s2.initialized && s2.qtype == qtype && s2.qclass == qclass &&
      s2.ttl == s.ttl && s2.rdlength == s.rdlength && s2.name == None && s2.rpdata == None &&
      InitStep(s1, qtype, qclass).0 == -2
  {
  }

  // ---------------------------------------------------------------------
  // <character-string>

  /**
   * tnet_dns_rr_charstring_deserialize: the length octet at `offset` is
   * accepted when it is smaller than `size`; then the string is the
   * `length` octets after it and the offset moves past them. Otherwise -1,
   * with the output and the offset untouched. The octets read must be in
   * `data`, which the C code does not check.
   */
  method CharstringDeserialize(data: seq<Byte>, size: nat, charstring: Option<seq<Byte>>, offset: nat)
    returns (ret: int, charstring': Option<seq<Byte>>, offset': nat)
    requires offset < |data|
    requires data[offset] < size ==> offset + 1 + data[offset] <= |data|
    ensures ret == 0 <==> data[offset] < size
    ensures ret == 0 ==> (charstring'.Some? && |charstring'.value| == data[offset] &&
      charstring'.value == data[offset + 1 .. offset + 1 + data[offset]] &&
      offset' == offset + 1 + |charstring'.value|)
    ensures ret != 0 ==> (ret == -1 && charstring' == charstring && offset' == offset)
  {
    var length: nat := data[offset];
    if length < size {
      charstring' := Some(data[offset + 1 .. offset + 1 + length]);
      offset' := offset + 1 + length;
      return 0, charstring', offset';
    }
    return -1, charstring, offset;
  }

  /** A <character-string> on the wire: its length octet, then its octets. */
  function EncodeCharstring(s: seq<Byte>): (b: seq<Byte>)
    requires |s| < 0x100
    ensures |b| == 1 + |s|
  {
    [|s|] + s
  }

  /**
   * A string of fewer than 256 octets, placed anywhere in a message, is
   * accepted by the decoder once `size` exceeds its length, and decodes to
   * itself, with the offset just past it.
   */
  lemma CharstringRoundTrip(s: seq<Byte>, pre: seq<Byte>, post: seq<Byte>, size: nat)
    requires |s| < 0x100 && |s| < size
    ensures var data := pre + EncodeCharstring(s) + post;
      |pre| < |data| && data[|pre|] == |s| && data[|pre|] < size &&
      |pre| + 1 + data[|pre|] <= |data| &&
      data[|pre| + 1 .. |pre| + 1 + data[|pre|]] == s
  {
    var data := pre + EncodeCharstring(s) + post;
    assert data[|pre|] == |s|;
    assert data == (pre + [|s|]) + s + post;
  }

  // ---------------------------------------------------------------------
  // The record header

  /** The offset just past the name that begins at `offset`. */
  function NameEnd(data: seq<Byte>, offset: nat): (e: nat)
    requires WellFormedName(data, offset)
    ensures offset < e <= |data|
  {
    DecodeName(data, offset, []).1
  }

  /**
   * tnet_dns_rr_deserialize: decode the name, read TYPE, CLASS, TTL and
   * RDLENGTH after it, build the record TYPE names, and advance the offset
   * past the header and RDLENGTH octets of RDATA whatever the type. An
   * unknown TYPE gives no record, and OPT takes CLASS as its payload size.
   *
   * `size == 0` would leave RDLENGTH unread before it moves the offset, so
   * it is excluded; the name and the header must be inside `data`.
   */
  method RrDeserialize(data: seq<Byte>, size: nat, offset: nat) returns (rr: Option<Record>, offset': nat)
    requires size != 0
    requires WellFormedName(data, offset)
    requires NameEnd(data, offset) + 10 <= |data|
    ensures var e := NameEnd(data, offset);
      offset' == e + 10 + ReadU16(data, e + 8) &&
      (rr.None? <==> QTypeOf(ReadU16(data, e)).None?) &&
      (QTypeOf(ReadU16(data, e)) == Some(OPT) ==> rr == Some(Opt(ReadU16(data, e + 2)))) &&
      (QTypeOf(ReadU16(data, e)).Some? && QTypeOf(ReadU16(data, e)) != Some(OPT) ==>
         rr == Some(Rr(QTypeOf(ReadU16(data, e)).value, DecodeName(data, offset, []).0,
                       ReadU16(data, e + 2), ReadU32(data, e + 4), ReadU16(data, e + 8),
                       data, e + 10)))
  {
    var ret, qname, pos := QnameDeserialize(data, [], offset);
    var qtype := ReadU16(data, pos);
    pos := pos + 2;
    var qclass := ReadU16(data, pos);
    pos := pos + 2;
    var ttl := ReadU32(data, pos);
    pos := pos + 4;
    var rdlength := ReadU16(data, pos);
    pos := pos + 2;
    var t := QTypeOf(qtype);
    if t.None? {
      rr := None;
    } else if t.value == OPT {
      rr := Some(Opt(qclass));
    } else {
      rr := Some(Rr(t.value, qname, qclass, ttl, rdlength, data, pos));
    }
    offset' := pos + rdlength;
  }

  /** The octets tnet_dns_rr_serialize emits for a record: its name and its header. */
  function RecordBytes(name: Option<seq<Byte>>, qtype: U16, qclass: U16, ttl: U32, rdlength: U16): (b: seq<Byte>)
    ensures |b| == |EncodeName(name)| + 10
    ensures b[..|EncodeName(name)|] == EncodeName(name)
  {
    EncodeName(name) + HeaderBytes(qtype, qclass, ttl, rdlength)
  }

  /**
   * tnet_dns_rr_serialize: -1 and nothing written for a null record or
   * buffer; otherwise append the name, then TYPE, CLASS, TTL and RDLENGTH in
   * network order. RDATA is never written and -1 is always returned.
   */
  method RrSerialize(rr: ResourceRecord?, output: Buffer?<Byte>) returns (ret: int)
    modifies output
    ensures ret == -1
    ensures output != null && rr == null ==> output.data == old(output.data)
    ensures output != null && rr != null ==>
      output.data == old(output.data) + RecordBytes(rr.name, rr.qtype, rr.qclass, rr.ttl, rr.rdlength)
  {
    if rr == null || output == null {
      return -1;
    }
    var _ := QnameSerialize(rr.name, output);
    output.Append(U16Bytes(rr.qtype));
    output.Append(U16Bytes(rr.qclass));
    output.Append(U32Bytes(rr.ttl));
    output.Append(U16Bytes(rr.rdlength));
    // the RDATA of every type is not implemented
    return -1;
  }

  /** The ten header octets the serializer emits after the name. */
  function HeaderBytes(qtype: U16, qclass: U16, ttl: U32, rdlength: U16): (b: seq<Byte>)
    ensures |b| == 10
  {
    U16Bytes(qtype) + U16Bytes(qclass) + U32Bytes(ttl) + U16Bytes(rdlength)
  }

  /** The decoder's four header reads give back what the serializer wrote. */
  lemma HeaderRoundTrip(qtype: U16, qclass: U16, ttl: U32, rdlength: U16, pre: seq<Byte>, post: seq<Byte>)
    ensures var data := pre + HeaderBytes(qtype, qclass, ttl, rdlength) + post;
      var e := |pre|;
      ReadU16(data, e) == qtype && ReadU16(data, e + 2) == qclass &&
      ReadU32(data, e + 4) == ttl && ReadU16(data, e + 8) == rdlength
  {
    var h := HeaderBytes(qtype, qclass, ttl, rdlength);
    var data := pre + h + post;
    var e := |pre|;
    assert data[e .. e + 10] == h;
    HeaderAt(data, e, qtype, qclass, ttl, rdlength);
  }

  /** The header fields read from ten octets that hold their encoding. */
  lemma HeaderAt(data: seq<Byte>, e: nat, qtype: U16, qclass: U16, ttl: U32, rdlength: U16)
    requires e + 10 <= |data| && data[e .. e + 10] == HeaderBytes(qtype, qclass, ttl, rdlength)
    ensures ReadU16(data, e) == qtype && ReadU16(data, e + 2) == qclass
    ensures ReadU32(data, e + 4) == ttl && ReadU16(data, e + 8) == rdlength
  {
    var t, c, l, r := U16Bytes(qtype), U16Bytes(qclass), U32Bytes(ttl), U16Bytes(rdlength);
    var h := data[e .. e + 10];
    assert h == t + c + l + r;
    assert h[0 .. 2] == t && h[2 .. 4] == c && h[4 .. 8] == l && h[8 .. 10] == r;
    SubSlice(data, e, e + 10, 0, 2);
    SubSlice(data, e, e + 10, 2, 4);
    SubSlice(data, e, e + 10, 4, 8);
    SubSlice(data, e, e + 10, 8, 10);
    ReadU16At(data, e, qtype);
    ReadU16At(data, e + 2, qclass);
    ReadU32At(data, e + 4, ttl);
    ReadU16At(data, e + 8, rdlength);
  }

  /** A slice of a slice is a slice of the whole. */
  lemma SubSlice<T>(s: seq<T>, a: nat, b: nat, i: nat, j: nat)
    requires a <= b <= |s| && i <= j <= b - a
    ensures s[a .. b][i .. j] == s[a + i .. a + j]
  {
    forall k | 0 <= k < j - i
      ensures s[a .. b][i .. j][k] == s[a + i .. a + j][k]
    {
      assert s[a .. b][i .. j][k] == s[a + i + k];
    }
  }

  /** ntohs of two octets that hold the htons bytes of `v` is `v`. */
  lemma ReadU16At(data: seq<Byte>, e: nat, v: U16)
    requires e + 2 <= |data| && data[e .. e + 2] == U16Bytes(v)
    ensures ReadU16(data, e) == v
  {
    assert data[e] == data[e .. e + 2][0] && data[e + 1] == data[e .. e + 2][1];
  }

  /** ntohl of four octets that hold the htonl bytes of `v` is `v`. */
  lemma ReadU32At(data: seq<Byte>, e: nat, v: U32)
    requires e + 4 <= |data| && data[e .. e + 4] == U32Bytes(v)
    ensures ReadU32(data, e) == v
  {
    SubSlice(data, e, e + 4, 0, 2);
    SubSlice(data, e, e + 4, 2, 4);
    ReadU16At(data, e, v / 0x1_0000);
    ReadU16At(data, e + 2, v % 0x1_0000);
  }

  /**
   * Round trip: the octets the serializer emits for a record whose name has
   * labels of 1 to 63 bytes, followed by its RDLENGTH octets of RDATA, meet
   * the decoder's preconditions; the decoder reads back the same name,
   * TYPE, CLASS, TTL and RDLENGTH, and its offset ends just past the RDATA.
   */
  lemma RecordRoundTrip(name: seq<Byte>, qtype: U16, qclass: U16, ttl: U32, rdlength: U16,
                        pre: seq<Byte>, rdata: seq<Byte>, post: seq<Byte>, data: seq<Byte>)
    requires CanonicalName(name)
    requires |rdata| == rdlength
    requires data == pre + RecordBytes(Some(name), qtype, qclass, ttl, rdlength) + rdata + post
    ensures WellFormedName(data, |pre|)
    ensures DecodeName(data, |pre|, []) == (name, |pre| + |EncodeName(Some(name))|)
    ensures NameEnd(data, |pre|) + 10 <= |data|
    ensures var e := NameEnd(data, |pre|);
      ReadU16(data, e) == qtype && ReadU16(data, e + 2) == qclass &&
      ReadU32(data, e + 4) == ttl && ReadU16(data, e + 8) == rdlength &&
      e + 10 + rdlength == |pre| + |RecordBytes(Some(name), qtype, qclass, ttl, rdlength)| + |rdata|
  {
    RecordName(name, qtype, qclass, ttl, rdlength, pre, rdata, post, data);
    RecordHeader(name, qtype, qclass, ttl, rdlength, pre, rdata, post, data);
  }

  /** The name part of the round trip. */
  lemma RecordName(name: seq<Byte>, qtype: U16, qclass: U16, ttl: U32, rdlength: U16,
                   pre: seq<Byte>, rdata: seq<Byte>, post: seq<Byte>, data: seq<Byte>)
    requires CanonicalName(name)
    requires data == pre + RecordBytes(Some(name), qtype, qclass, ttl, rdlength) + rdata + post
    ensures WellFormedName(data, |pre|)
    ensures DecodeName(data, |pre|, []) == (name, |pre| + |EncodeName(Some(name))|)
  {
    var n := EncodeName(Some(name));
    var h := HeaderBytes(qtype, qclass, ttl, rdlength);
    assert data == pre + n + (h + rdata + post);
    NameRoundTrip(name, pre, h + rdata + post);
  }

  /** The header part of the round trip. */
  lemma RecordHeader(name: seq<Byte>, qtype: U16, qclass: U16, ttl: U32, rdlength: U16,
                     pre: seq<Byte>, rdata: seq<Byte>, post: seq<Byte>, data: seq<Byte>)
    requires data == pre + RecordBytes(Some(name), qtype, qclass, ttl, rdlength) + rdata + post
    ensures var e := |pre| + |EncodeName(Some(name))|;
      e + 10 <= |data| &&
      ReadU16(data, e) == qtype && ReadU16(data, e + 2) == qclass &&
      ReadU32(data, e + 4) == ttl && ReadU16(data, e + 8) == rdlength
  {
    var n := EncodeName(Some(name));
    var h := HeaderBytes(qtype, qclass, ttl, rdlength);
    assert RecordBytes(Some(name), qtype, qclass, ttl, rdlength) == n + h;
    FieldWindow(data, pre, n, h, rdata, post);
    HeaderAt(data, |pre| + |n|, qtype, qclass, ttl, rdlength);
  }

  /** Where a field sits in a record laid out as prefix, name, field and the rest. */
  lemma FieldWindow<T>(data: seq<T>, pre: seq<T>, n: seq<T>, h: seq<T>, rdata: seq<T>, post: seq<T>)
    requires data == pre + (n + h) + rdata + post
    ensures |pre| + |n| + |h| <= |data| && data[|pre| + |n| .. |pre| + |n| + |h|] == h
  {
    assert data == (pre + n) + h + (rdata + post);
  }

  /**
   * A record for the root name: one zero octet, TYPE A, CLASS IN, TTL 60
   * and the four octets of 127.0.0.1. The name ends after one octet, and the
   * decoder's offset ends 15 octets after the start.
   */
  lemma RootARecord()
    ensures var data: seq<Byte> := [0, 0, 1, 0, 1, 0, 0, 0, 0x3C, 0, 4, 127, 0, 0, 1];
      WellFormedName(data, 0) && DecodeName(data, 0, []) == ([], 1) &&
      QTypeOf(ReadU16(data, 1)) == Some(A) && ReadU16(data, 3) == 1 &&
      ReadU32(data, 5) == 60 && ReadU16(data, 9) == 4 &&
      1 + 10 + ReadU16(data, 9) == 15
  {
  }
}

/**
 * The header list of an SDP message (tsdp_message.c): headers kept in
 * ascending rank order, looked up by type and position or by one-letter
 * name, rendered in order, cloned and removed by media name.
 *
 * The header objects themselves (their ranks, renderers and clones) are
 * not part of this model: a header is a value carrying its type, its
 * one-letter name, its rank and, for an "m=" header, its media string.
 */
module SdpMessage {
  import opened Wrappers
  import opened Buffers

  /** tsdp_header_type_t: one tag per SDP line type, and the Dummy header. */
  datatype HeaderType = A | B | C | Dummy | E | I | K | M | O | P | R | S | T | U | V | Z

  /**
   * A header: its type, the one-letter name tsdp_header_get_nameex gives
   * it, the rank the ascending insert compares, and the media string of an
   * "m=" header (None for every other type, or when it has none).
   */
  datatype Header = Header(htype: HeaderType, name: char, rank: int, media: Option<string>)

  /** tsdp_message_t: the list of its headers. */
  class Message {
    var headers: seq<Header>

    /** TSDP_MESSAGE_CREATE: a message with no header. */
    constructor ()
      ensures headers == []
    {
      headers := [];
    }
  }

  // ---------------------------------------------------------------------
  // The three predicates

  /** pred_find_header_by_type: a header matches a type when it is of that type. */
  predicate MatchesType(h: Header, htype: HeaderType) {
    h.htype == htype
  }

  /** pred_find_header_by_name: a header matches a letter when that is its name. */
  predicate MatchesName(h: Header, name: char) {
    h.name == name
  }

  /** ASCII tolower: a capital becomes its small letter, and every other character is left alone. */
  function Lower(c: char): (l: char)
    ensures !('A' <= l <= 'Z')
    ensures 'A' <= c <= 'Z' ==> 'a' <= l <= 'z' && (l as int) - ('a' as int) == (c as int) - ('A' as int)
    ensures !('A' <= c <= 'Z') ==> l == c
  {
    if 'A' <= c <= 'Z' then ((c as int) - ('A' as int) + ('a' as int)) as char else c
  }

  /** tsk_stricmp(a, b) == 0: equal lengths and equal characters up to ASCII case. */
  predicate EqualsIgnoreCase(a: string, b: string) {
    |a| == |b| && forall i :: 0 <= i < |a| ==> Lower(a[i]) == Lower(b[i])
  }

  /**
   * pred_find_media_by_name: only an "m=" header with a media string can
   * match, and it matches a name equal to that string up to ASCII case,
   * so of the same length.
   */
  predicate MatchesMedia(h: Header, media: string)
    ensures h.htype != M ==> !MatchesMedia(h, media)
    ensures MatchesMedia(h, media) ==> h.media.Some? && |h.media.value| == |media|
  {
    h.htype == M && h.media.Some? && EqualsIgnoreCase(h.media.value, media)
  }

  /** Matching a media name ignores case on both sides: it only depends on the lower-cased strings. */
  lemma MatchesMediaIgnoresCase(h: Header, media: string, other: string)
    requires EqualsIgnoreCase(media, other)
    ensures MatchesMedia(h, media) <==> MatchesMedia(h, other)
  {
  }

  // ---------------------------------------------------------------------
  // List operations and their specifications

  /** Headers in ascending rank order, the order the insert keeps. */
  predicate Sorted(hs: seq<Header>) {
    forall i, j :: 0 <= i < j < |hs| ==> hs[i].rank <= hs[j].rank
  }

  /**
   * Where tsk_list_push_ascending_data puts `h`: before the first header
   * of strictly greater rank, so after every header of equal rank.
   */
  function InsertionPoint(hs: seq<Header>, h: Header): (k: nat)
    ensures k <= |hs|
    ensures forall i :: 0 <= i < k ==> hs[i].rank <= h.rank
    ensures k < |hs| ==> hs[k].rank > h.rank
  {
    if hs == [] || hs[0].rank > h.rank then 0 else 1 + InsertionPoint(hs[1..], h)
  }

  /** The list after the ascending insert of `h`: one header longer, and holding `h`. */
  function InsertAscending(hs: seq<Header>, h: Header): (r: seq<Header>)
    ensures |r| == |hs| + 1 && h in r
  {
    var k := InsertionPoint(hs, h);
    hs[..k] + [h] + hs[k..]
  }

  /** The ascending insert keeps a sorted list sorted. */
  lemma InsertKeepsSorted(hs: seq<Header>, h: Header)
    requires Sorted(hs)
    ensures Sorted(InsertAscending(hs, h))
  {
    var k := InsertionPoint(hs, h);
    var r := InsertAscending(hs, h);
    forall i, j | 0 <= i < j < |r|
      ensures r[i].rank <= r[j].rank
    {
      InsertedAt(hs, h, k, i);
      InsertedAt(hs, h, k, j);
      if i < k && j > k {
        assert hs[i].rank <= hs[j - 1].rank;
      } else if i == k && j > k {
        assert hs[k].rank <= hs[j - 1].rank;
      }
    }
  }

  /** The element at `i` once `h` is inserted at `k`. */
  lemma InsertedAt(hs: seq<Header>, h: Header, k: nat, i: nat)
    requires k <= |hs| && i <= |hs|
    ensures (hs[..k] + [h] + hs[k..])[i] == if i < k then hs[i] else if i == k then h else hs[i - 1]
  {
  }

  /** The ascending insert adds exactly `h`, and keeps the other headers in their order. */
  lemma InsertAddsOne(hs: seq<Header>, h: Header)
    ensures |InsertAscending(hs, h)| == |hs| + 1
    ensures multiset(InsertAscending(hs, h)) == multiset(hs) + multiset{h}
    ensures var k := InsertionPoint(hs, h);
      InsertAscending(hs, h)[k] == h &&
      InsertAscending(hs, h)[..k] + InsertAscending(hs, h)[k + 1..] == hs
  {
    var k := InsertionPoint(hs, h);
    var r := InsertAscending(hs, h);
    assert hs == hs[..k] + hs[k..];
    assert r[..k] == hs[..k];
    assert r[k + 1..] == hs[k..];
  }

  /**
   * The index of the first element that satisfies `p`, or None: what
   * tsk_list_find_item_by_pred finds.
   */
  function FirstIndex<T>(s: seq<T>, p: T -> bool): (k: Option<nat>)
    ensures k.Some? ==> k.value < |s| && p(s[k.value]) && forall i :: 0 <= i < k.value ==> !p(s[i])
    ensures k.None? ==> forall i :: 0 <= i < |s| ==> !p(s[i])
  {
    if s == [] then None
    else if p(s[0]) then Some(0)
    else
      var k := FirstIndex(s[1..], p);
      if k.Some? then Some(k.value + 1) else None
  }

  /** The headers of one type, in list order. */
  function OfType(hs: seq<Header>, htype: HeaderType): (r: seq<Header>)
    ensures |r| <= |hs|
    ensures forall i :: 0 <= i < |r| ==> r[i].htype == htype
  {
    if hs == [] then []
    else OfType(hs[..|hs| - 1], htype) + (if MatchesType(hs[|hs| - 1], htype) then [hs[|hs| - 1]] else [])
  }

  /** The headers of a type in a prefix of the list are the first ones of that type in the whole list. */
  lemma {:induction false} OfTypePrefix(hs: seq<Header>, j: nat, htype: HeaderType)
    requires j <= |hs|
    ensures |OfType(hs[..j], htype)| <= |OfType(hs, htype)|
    ensures OfType(hs[..j], htype) == OfType(hs, htype)[..|OfType(hs[..j], htype)|]
    decreases |hs|
  {
    if j < |hs| {
      var init := hs[..|hs| - 1];
      assert init[..j] == hs[..j];
      OfTypePrefix(init, j, htype);
    } else {
      assert hs[..j] == hs;
    }
  }

  /** The index of the first header whose media matches: the one tsk_list_remove_item_by_pred takes out. */
  function FirstMedia(hs: seq<Header>, media: string): (k: Option<nat>)
    ensures k.Some? ==> (k.value < |hs| && MatchesMedia(hs[k.value], media) &&
      forall i :: 0 <= i < k.value ==> !MatchesMedia(hs[i], media))
    ensures k.None? ==> forall i :: 0 <= i < |hs| ==> !MatchesMedia(hs[i], media)
  {
    FirstIndex(hs, h => MatchesMedia(h, media))
  }

  /**
   * The list without the first header whose media matches: one header
   * shorter when some header matches, and unchanged when none does.
   */
  function RemoveFirstMedia(hs: seq<Header>, media: string): (r: seq<Header>)
    ensures (exists i :: 0 <= i < |hs| && MatchesMedia(hs[i], media)) ==> |r| == |hs| - 1
    ensures (forall i :: 0 <= i < |hs| ==> !MatchesMedia(hs[i], media)) ==> r == hs
  {
    var k := FirstMedia(hs, media);
    if k.Some? then hs[..k.value] + hs[k.value + 1..] else hs
  }

  /** Taking out the header at `n`: one header fewer, and exactly that one. */
  lemma RemoveAt(hs: seq<Header>, n: nat)
    requires n < |hs|
    ensures |hs[..n] + hs[n + 1..]| == |hs| - 1
    ensures multiset(hs[..n] + hs[n + 1..]) == multiset(hs) - multiset{hs[n]}
  {
    assert hs == hs[..n] + [hs[n]] + hs[n + 1..];
  }

  /** Taking out the header at `n` keeps a sorted list sorted. */
  lemma RemoveAtSorted(hs: seq<Header>, n: nat)
    requires n < |hs| && Sorted(hs)
    ensures Sorted(hs[..n] + hs[n + 1..])
  {
    var r := hs[..n] + hs[n + 1..];
    forall i, j | 0 <= i < j < |r|
      ensures r[i].rank <= r[j].rank
    {
      var i' := if i < n then i else i + 1;
      var j' := if j < n then j else j + 1;
      assert r[i] == hs[i'] && r[j] == hs[j'];
    }
  }

  /**
   * Removal by media name takes out exactly the first matching "m="
   * header and keeps the others in order; it changes nothing when no
   * header matches.
   */
  lemma RemoveFirstMediaSpec(hs: seq<Header>, media: string)
    ensures (exists i :: 0 <= i < |hs| && MatchesMedia(hs[i], media)) ==>
      exists k :: 0 <= k < |hs| && MatchesMedia(hs[k], media) && hs[k].htype == M &&
        (forall i :: 0 <= i < k ==> !MatchesMedia(hs[i], media)) &&
        RemoveFirstMedia(hs, media) == hs[..k] + hs[k + 1..] &&
        |RemoveFirstMedia(hs, media)| == |hs| - 1 &&
        multiset(RemoveFirstMedia(hs, media)) == multiset(hs) - multiset{hs[k]}
    ensures (forall i :: 0 <= i < |hs| ==> !MatchesMedia(hs[i], media)) ==> RemoveFirstMedia(hs, media) == hs
  {
    var k := FirstMedia(hs, media);
    if k.Some? {
      RemoveAt(hs, k.value);
    }
  }

  /** Removal by media name keeps a sorted list sorted. */
  lemma RemoveKeepsSorted(hs: seq<Header>, media: string)
    requires Sorted(hs)
    ensures Sorted(RemoveFirstMedia(hs, media))
  {
    var k := FirstMedia(hs, media);
    if k.Some? {
      RemoveAtSorted(hs, k.value);
    }
  }

  /** The rendering of a list of headers: each header's text, in list order. */
  function Rendered(hs: seq<Header>, render: Header -> string): string {
    if hs == [] then [] else Rendered(hs[..|hs| - 1], render) + render(hs[|hs| - 1])
  }

  /** Rendering distributes over concatenation: the message text is the headers' texts in order. */
  lemma {:induction false} RenderedConcat(a: seq<Header>, b: seq<Header>, render: Header -> string)
    ensures Rendered(a + b, render) == Rendered(a, render) + Rendered(b, render)
    decreases |b|
  {
    if b == [] {
      assert a + b == a;
    } else {
      var init := b[..|b| - 1];
      assert (a + b)[..|a + b| - 1] == a + init;
      assert (a + b)[|a + b| - 1] == b[|b| - 1];
      RenderedConcat(a, init, render);
    }
  }

  // ---------------------------------------------------------------------
  // The message operations

  /**
   * tsdp_message_add_header: -1 and nothing changed for a null message or
   * header; otherwise insert the header in ascending order and return 0.
   */
  method AddHeader(self: Message?, hdr: Option<Header>) returns (ret: int)
    modifies self
    ensures self == null || hdr.None? ==> ret == -1
    ensures self != null && hdr.None? ==> self.headers == old(self.headers)
    ensures self != null && hdr.Some? ==> ret == 0 && self.headers == InsertAscending(old(self.headers), hdr.value)
  {
    if self != null && hdr.Some? {
      self.headers := InsertAscending(self.headers, hdr.value);
      return 0;
    }
    return -1;
  }

  /**
   * tsdp_message_get_headerAt: walk the list counting the headers of the
   * type; the header of that type at position `index` (from 0), or None if
   * there are not that many, or no message.
   */
  method GetHeaderAt(self: Message?, htype: HeaderType, index: nat) returns (hdr: Option<Header>)
    ensures self == null ==> hdr == None
    ensures self != null && index < |OfType(self.headers, htype)| ==>
      hdr == Some(OfType(self.headers, htype)[index])
    ensures self != null && index >= |OfType(self.headers, htype)| ==> hdr == None
  {
    if self == null {
      return None;
    }
    var hs := self.headers;
    var pos := 0;
    var i := 0;
    while i < |hs|
      invariant i <= |hs|
      invariant pos == |OfType(hs[..i], htype)| && pos <= index
    {
      var h := hs[i];
      OfTypeSnoc(hs, i, htype);
      if MatchesType(h, htype) {
        // pos++ >= index: compare, then count
        if pos >= index {
          FoundAt(hs, i, htype);
          return Some(h);
        }
        pos := pos + 1;
      }
      i := i + 1;
    }
    assert hs[..i] == hs;
    return None;
  }

  /** Counting one more header of the list. */
  lemma OfTypeSnoc(hs: seq<Header>, i: nat, htype: HeaderType)
    requires i < |hs|
    ensures OfType(hs[..i + 1], htype) == OfType(hs[..i], htype) + (if MatchesType(hs[i], htype) then [hs[i]] else [])
  {
    assert hs[..i + 1][..i] == hs[..i];
  }

  /** A header of the type at `i` is the next one of that type after those before it. */
  lemma FoundAt(hs: seq<Header>, i: nat, htype: HeaderType)
    requires i < |hs| && MatchesType(hs[i], htype)
    ensures |OfType(hs[..i], htype)| < |OfType(hs, htype)|
    ensures OfType(hs, htype)[|OfType(hs[..i], htype)|] == hs[i]
  {
    OfTypeSnoc(hs, i, htype);
    OfTypePrefix(hs, i + 1, htype);
    var before := OfType(hs[..i], htype);
    assert OfType(hs[..i + 1], htype) == before + [hs[i]];
    assert OfType(hs[..i + 1], htype)[|before|] == hs[i];
  }

  /** tsdp_message_get_header: the first header of the type, or None if there is none. */
  method GetHeader(self: Message?, htype: HeaderType) returns (hdr: Option<Header>)
    ensures self == null ==> hdr == None
    ensures self != null ==>
      hdr == (if |OfType(self.headers, htype)| > 0 then Some(OfType(self.headers, htype)[0]) else None)
    ensures self != null && hdr.Some? ==>
      exists k :: 0 <= k < |self.headers| && self.headers[k] == hdr.value && hdr.value.htype == htype &&
        forall i :: 0 <= i < k ==> self.headers[i].htype != htype
    ensures self != null && hdr.None? ==> forall i :: 0 <= i < |self.headers| ==> self.headers[i].htype != htype
  {
    hdr := GetHeaderAt(self, htype, 0);
    if self != null {
      OfTypeNone(self.headers, htype);
      if hdr.Some? {
        var k := OfTypeFirst(self.headers, htype);
      }
    }
  }

  /** The first header of a type is the first header of the list that has that type. */
  lemma {:induction false} OfTypeFirst(hs: seq<Header>, htype: HeaderType) returns (k: nat)
    requires |OfType(hs, htype)| > 0
    ensures k < |hs| && hs[k] == OfType(hs, htype)[0] && hs[k].htype == htype
    ensures forall i :: 0 <= i < k ==> hs[i].htype != htype
    decreases |hs|
  {
    var init, last := hs[..|hs| - 1], hs[|hs| - 1];
    var tail := if MatchesType(last, htype) then [last] else [];
    assert OfType(hs, htype) == OfType(init, htype) + tail;
    if |OfType(init, htype)| > 0 {
      k := OfTypeFirst(init, htype);
      assert OfType(hs, htype)[0] == OfType(init, htype)[0];
      assert forall i :: 0 <= i <= k ==> hs[i] == init[i];
    } else {
      OfTypeNone(init, htype);
      k := |hs| - 1;
      assert OfType(hs, htype) == [last];
      assert forall i :: 0 <= i < k ==> hs[i] == init[i];
    }
  }

  /** No header of a type is listed exactly when no header of the list has that type. */
  lemma {:induction false} OfTypeNone(hs: seq<Header>, htype: HeaderType)
    ensures |OfType(hs, htype)| == 0 <==> forall i :: 0 <= i < |hs| ==> hs[i].htype != htype
    decreases |hs|
  {
    if hs != [] {
      var init, last := hs[..|hs| - 1], hs[|hs| - 1];
      var tail := if MatchesType(last, htype) then [last] else [];
      assert OfType(hs, htype) == OfType(init, htype) + tail;
      OfTypeNone(init, htype);
      assert forall i :: 0 <= i < |init| ==> hs[i] == init[i];
    }
  }

  /** The headers of a type are exactly the headers of the list that have that type. */
  lemma {:induction false} OfTypeMembers(hs: seq<Header>, htype: HeaderType)
    ensures forall h :: h in OfType(hs, htype) <==> h in hs && h.htype == htype
    decreases |hs|
  {
    if hs != [] {
      var init := hs[..|hs| - 1];
      OfTypeMembers(init, htype);
      assert hs == init + [hs[|hs| - 1]];
    }
  }

  /** tsdp_message_get_headerByName: the first header with that one-letter name, or None. */
  method GetHeaderByName(self: Message?, name: char) returns (hdr: Option<Header>)
    ensures self == null ==> hdr == None
    ensures self != null && hdr.Some? ==>
      exists k :: 0 <= k < |self.headers| && self.headers[k] == hdr.value && hdr.value.name == name &&
        forall i :: 0 <= i < k ==> self.headers[i].name != name
    ensures self != null && hdr.None? ==> forall i :: 0 <= i < |self.headers| ==> self.headers[i].name != name
  {
    if self != null {
      var k := FirstIndex(self.headers, h => MatchesName(h, name));
      if k.Some? {
        return Some(self.headers[k.value]);
      }
    }
    return None;
  }

  /**
   * tsdp_message_tostring: -1 for a null message or buffer; otherwise
   * append every header's text in list order and return 0, whatever each
   * header's own rendering returns. `render` stands for
   * tsdp_header_tostring, which is not part of this model: it is the text
   * that call appends.
   */
  method ToString(self: Message?, output: Buffer?<char>, render: Header -> string) returns (ret: int)
    modifies output
    ensures self == null || output == null ==> ret == -1
    ensures self == null && output != null ==> output.data == old(output.data)
    ensures self != null && output != null ==>
      ret == 0 && output.data == old(output.data) + Rendered(self.headers, render)
  {
    if self == null || output == null {
      return -1;
    }
    var hs := self.headers;
    var i := 0;
    while i < |hs|
      invariant i <= |hs|
      invariant output.data == old(output.data) + Rendered(hs[..i], render)
    {
      output.Append(render(hs[i]));
      // the code tsdp_header_tostring returns is ignored
      assert hs[..i + 1][..i] == hs[..i];
      i := i + 1;
    }
    assert hs[..i] == hs;
    return 0;
  }

  /**
   * tsdp_message_clone: None for no message; otherwise a new message whose
   * list receives a clone of each header, pushed at the back in list order.
   */
  method Clone(self: Message?) returns (clone: Message?)
    ensures self == null ==> clone == null
    ensures self != null ==> clone != null && fresh(clone) && clone.headers == self.headers
  {
    if self == null {
      return null;
    }
    clone := new Message();
    var i := 0;
    while i < |self.headers|
      invariant i <= |self.headers|
      invariant clone.headers == self.headers[..i]
    {
      // a header's clone is an equal value
      var header := self.headers[i];
      clone.headers := clone.headers + [header];
      assert self.headers[..i + 1] == self.headers[..i] + [header];
      i := i + 1;
    }
    assert self.headers[..i] == self.headers;
  }

  /**
   * tsdp_message_remove_media: take the first "m=" header matching the
   * media name out of the list; a null name matches no header. `ret` is never set, so -1 is returned
   * whether or not a header was removed.
   */
  method RemoveMedia(self: Message?, media: Option<string>) returns (ret: int)
    modifies self
    ensures ret == -1
    ensures self != null && media.None? ==> self.headers == old(self.headers)
    ensures self != null && media.Some? ==> self.headers == RemoveFirstMedia(old(self.headers), media.value)
  {
    ret := -1;
    // with a null name the predicate matches no header, so nothing is removed
    if self != null && media.Some? {
      self.headers := RemoveFirstMedia(self.headers, media.value);
    }
  }

  /**
   * The order invariant of a message: both operations that change the
   * list keep it sorted.
   */
  lemma OperationsKeepSorted(hs: seq<Header>, h: Header, media: string)
    requires Sorted(hs)
    ensures Sorted(InsertAscending(hs, h))
    ensures Sorted(RemoveFirstMedia(hs, media))
  {
    InsertKeepsSorted(hs, h);
    RemoveKeepsSorted(hs, media);
  }
}

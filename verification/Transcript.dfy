/** The Fiat-Shamir transcript: an append-only byte buffer of length-prefixed frames. */
module Transcripts {
  import opened Scalars
  import opened Bytes
  import opened Curves
  import opened Encoding

  /** The output of the hash function, which is a parameter of the model. */
  type Digest = d: bytes | |d| == 32 witness seq(32, i => 0)

  function Apply(keccak: bytes -> Digest, b: bytes): Digest { keccak(b) }

  /** One AppendBytes call. */
  datatype Item = Item(tag: bytes, data: bytes)

  /** A four-byte length (of which only the low 32 bits are kept) and the data. */
  function Frame(data: bytes): bytes
  {
    ToLittleEndian(|data|, 4) + data
  }

  function EncodeItem(item: Item): bytes
  {
    Frame(item.tag) + Frame(item.data)
  }

  function EncodeItems(items: seq<Item>): bytes
  {
    if items == [] then [] else EncodeItem(items[0]) + EncodeItems(items[1..])
  }

  lemma {:induction false} EncodeItemsConcat(a: seq<Item>, b: seq<Item>)
    ensures EncodeItems(a + b) == EncodeItems(a) + EncodeItems(b)
  {
    if a == [] {
      assert a + b == b;
    } else {
      assert (a + b)[1..] == a[1..] + b;
      EncodeItemsConcat(a[1..], b);
    }
  }

  lemma Regroup(s: bytes, a: bytes, b: bytes, d: bytes, e: bytes)
    ensures s + a + b + d + e == s + ((a + b) + (d + e))
  {
  }

  lemma Reassociate(a: bytes, b: bytes, d: bytes)
    ensures (a + b) + d == a + (b + d)
  {
  }

  lemma EncodeItemsAppend(start: bytes, items: seq<Item>, item: Item)
    ensures start + EncodeItems(items) + EncodeItem(item) == start + EncodeItems(items + [item])
  {
    EncodeItemsConcat(items, [item]);
    assert EncodeItems([item]) == EncodeItem(item) + EncodeItems([]);
    Reassociate(start, EncodeItems(items), EncodeItem(item));
  }

  /** The bytes hashed for a challenge drawn after the given items. */
  function HashInput(state: bytes, items: seq<Item>, tag: bytes): bytes
  {
    state + EncodeItems(items) + Frame(tag)
  }

  function Challenge(keccak: bytes -> Digest, q: nat, state: bytes, items: seq<Item>, tag: bytes): (e: nat)
    requires q > 0
    ensures e < q
  {
    FromBigEndian(Apply(keccak, HashInput(state, items, tag))) % q
  }

  /** The transcript after that challenge: the digest is folded back in. */
  function AfterChallenge(keccak: bytes -> Digest, state: bytes, items: seq<Item>, tag: bytes): bytes
  {
    var input := HashInput(state, items, tag);
    input + Apply(keccak, input)
  }

  class Transcript {
    const keccak: bytes -> Digest
    var state: bytes
    ghost var anchor: bytes        // the state after construction or after the last challenge
    ghost var pending: seq<Item>   // the items appended since

    ghost predicate Valid()
      reads this
    {
      state == anchor + EncodeItems(pending)
    }

    constructor (keccak: bytes -> Digest, domain: bytes)
      ensures Valid() && this.keccak == keccak
      ensures state == ToLittleEndian(|domain|, 4) + domain && anchor == state && pending == []
    {
      this.keccak := keccak;
      state := ToLittleEndian(|domain|, 4) + domain;
      anchor := ToLittleEndian(|domain|, 4) + domain;
      pending := [];
    }

    method AppendBytes(tag: bytes, data: bytes)
      requires Valid()
      modifies this`state, this`pending
      ensures Valid()
      ensures state == old(state) + (ToLittleEndian(|tag|, 4) + tag) + (ToLittleEndian(|data|, 4) + data)
      ensures pending == old(pending) + [Item(tag, data)]
    {
      state := state + ToLittleEndian(|tag|, 4);
      state := state + tag;
      state := state + ToLittleEndian(|data|, 4);
      state := state + data;
      Regroup(old(state), ToLittleEndian(|tag|, 4), tag, ToLittleEndian(|data|, 4), data);
      EncodeItemsAppend(anchor, pending, Item(tag, data));
      pending := pending + [Item(tag, data)];
    }

    method AppendPoint(tag: bytes, P: Affine)
      requires Valid()
      modifies this`state, this`pending
      ensures Valid()
      ensures state == old(state) + (ToLittleEndian(|tag|, 4) + tag) + (ToLittleEndian(64, 4) + MarshalPoint(P))
      ensures pending == old(pending) + [Item(tag, MarshalPoint(P))]
    {
      AppendBytes(tag, MarshalPoint(P));
    }

    method AppendScalar(tag: bytes, s: nat)
      requires Valid()
      modifies this`state, this`pending
      ensures Valid()
      ensures state == old(state) + (ToLittleEndian(|tag|, 4) + tag) + (ToLittleEndian(32, 4) + MarshalScalar(s))
      ensures pending == old(pending) + [Item(tag, MarshalScalar(s))]
    {
      AppendBytes(tag, MarshalScalar(s));
    }

    method ChallengeScalar(tag: bytes, q: nat) returns (e: nat)
      requires Valid() && q > 0
      modifies this
      ensures Valid() && pending == [] && anchor == state
      ensures var input := old(state) + (ToLittleEndian(|tag|, 4) + tag);
              state == input + keccak(input) && e == FromBigEndian(keccak(input)) % q
      ensures e == Challenge(keccak, q, old(anchor), old(pending), tag)
      ensures state == AfterChallenge(keccak, old(anchor), old(pending), tag)
    {
      state := state + ToLittleEndian(|tag|, 4);
      state := state + tag;
      assert state == HashInput(anchor, pending, tag);
      var hash := Apply(keccak, state);
      state := state + hash;
      e := FromBigEndian(hash) % q;
      anchor, pending := state, [];
    }
  }

  /** Hashing old and new items is hashing the new items from the state they start in. */
  lemma HashInputSplits(anchor: bytes, before: seq<Item>, items: seq<Item>, tag: bytes)
    ensures HashInput(anchor, before + items, tag) == HashInput(anchor + EncodeItems(before), items, tag)
  {
    EncodeItemsConcat(before, items);
    Reassociate(anchor, EncodeItems(before), EncodeItems(items));
  }

  // ---------- unique decodability ----------

  /** A length that its four-byte prefix represents exactly. */
  predicate Short(b: bytes)
  {
    |b| < Pow256(4)
  }

  predicate ShortItems(items: seq<Item>)
  {
    forall item :: item in items ==> Short(item.tag) && Short(item.data)
  }

  /** The first frame of b, and the rest. */
  function DecodeFrame(b: bytes): (r: Option<(bytes, bytes)>)
    ensures r.Some? ==> |r.value.1| < |b|
  {
    if |b| < 4 then None
    else
      var n := FromLittleEndian(b[..4]);
      if |b| < 4 + n then None else Some((b[4..4 + n], b[4 + n..]))
  }

  /** Reads (label, data) pairs until a label ends the input: that label is the challenge label. */
  function DecodeItems(b: bytes): Option<(seq<Item>, bytes)>
    decreases |b|
  {
    match DecodeFrame(b)
    case None => None
    case Some((tag, afterTag)) =>
      if afterTag == [] then Some(([], tag))
      else
        match DecodeFrame(afterTag)
        case None => None
        case Some((data, afterData)) =>
          match DecodeItems(afterData)
          case None => None
          case Some((items, challenge)) => Some(([Item(tag, data)] + items, challenge))
  }

  /** Domain, items and challenge label of a hashed transcript. */
  function DecodeTranscript(b: bytes): Option<(bytes, seq<Item>, bytes)>
  {
    match DecodeFrame(b)
    case None => None
    case Some((domain, rest)) =>
      match DecodeItems(rest)
      case None => None
      case Some((items, challenge)) => Some((domain, items, challenge))
  }

  lemma DecodesFrame(data: bytes, rest: bytes)
    requires Short(data)
    ensures DecodeFrame(Frame(data) + rest) == Some((data, rest))
  {
    LittleEndianRoundTrip(|data|, 4);
    assert (Frame(data) + rest)[..4] == ToLittleEndian(|data|, 4);
  }

  lemma DecodesOneItem(item: Item, rest: bytes, items: seq<Item>, tag: bytes)
    requires Short(item.tag) && Short(item.data)
    requires DecodeItems(rest) == Some((items, tag))
    ensures DecodeItems(EncodeItem(item) + rest) == Some(([item] + items, tag))
  {
    DecodesFrame(item.tag, Frame(item.data) + rest);
    DecodesFrame(item.data, rest);
    assert EncodeItem(item) + rest == Frame(item.tag) + (Frame(item.data) + rest);
  }

  lemma DecodesChallengeLabel(tag: bytes)
    requires Short(tag)
    ensures DecodeItems(Frame(tag)) == Some(([], tag))
  {
    DecodesFrame(tag, []);
    assert Frame(tag) == Frame(tag) + [];
  }

  lemma {:induction false} DecodesItems(items: seq<Item>, tag: bytes)
    requires ShortItems(items) && Short(tag)
    ensures DecodeItems(EncodeItems(items) + Frame(tag)) == Some((items, tag))
  {
    if items == [] {
      DecodesChallengeLabel(tag);
      assert EncodeItems(items) + Frame(tag) == Frame(tag);
    } else {
      var rest := EncodeItems(items[1..]) + Frame(tag);
      DecodesItems(items[1..], tag);
      DecodesOneItem(items[0], rest, items[1..], tag);
      Reassociate(EncodeItem(items[0]), EncodeItems(items[1..]), Frame(tag));
      assert [items[0]] + items[1..] == items;
    }
  }

  lemma DecodedFrameIsShort(b: bytes)
    ensures DecodeFrame(b).Some? ==> Short(DecodeFrame(b).value.0)
  {
    if |b| >= 4 {
      FromLittleEndianBound(b[..4]);
    }
  }

  lemma {:induction false} DecodedItemsAreShort(b: bytes)
    ensures DecodeItems(b).Some? ==> ShortItems(DecodeItems(b).value.0) && Short(DecodeItems(b).value.1)
    decreases |b|
  {
    DecodedFrameIsShort(b);
    if DecodeFrame(b).Some? {
      var rest := DecodeFrame(b).value.1;
      DecodedFrameIsShort(rest);
      if rest != [] && DecodeFrame(rest).Some? {
        DecodedItemsAreShort(DecodeFrame(rest).value.1);
      }
    }
  }

  /**
   The bytes hashed at the first challenge decode to everything that was written exactly when every
   length fits its four-byte prefix.
   */
  lemma DecodesTranscript(domain: bytes, items: seq<Item>, tag: bytes)
    ensures DecodeTranscript(HashInput(Frame(domain), items, tag)) == Some((domain, items, tag))
            <==> Short(domain) && ShortItems(items) && Short(tag)
  {
    var rest := EncodeItems(items) + Frame(tag);
    var whole := HashInput(Frame(domain), items, tag);
    assert whole == Frame(domain) + rest;
    if Short(domain) && ShortItems(items) && Short(tag) {
      DecodesFrame(domain, rest);
      DecodesItems(items, tag);
    }
    DecodedFrameIsShort(whole);
    if DecodeFrame(whole).Some? {
      DecodedItemsAreShort(DecodeFrame(whole).value.1);
    }
  }

  /** Hence equal hashed bytes mean equal domain, items and challenge label. */
  lemma HashInputInjective(domain1: bytes, items1: seq<Item>, tag1: bytes,
                           domain2: bytes, items2: seq<Item>, tag2: bytes)
    requires Short(domain1) && ShortItems(items1) && Short(tag1)
    requires Short(domain2) && ShortItems(items2) && Short(tag2)
    requires HashInput(Frame(domain1), items1, tag1) == HashInput(Frame(domain2), items2, tag2)
    ensures domain1 == domain2 && items1 == items2 && tag1 == tag2
  {
    DecodesTranscript(domain1, items1, tag1);
    DecodesTranscript(domain2, items2, tag2);
  }

  // ---------- beyond 2^32 bytes ----------

  function Zeros(n: nat): (b: bytes)
    ensures |b| == n
  {
    seq(n, i => 0)
  }

  function EmptyItems(n: nat): seq<Item>
  {
    seq(n, i => Item([], []))
  }

  /** A multiple of 256^width has only zero bytes in its low width bytes. */
  lemma {:induction false} ZeroLength(k: nat, width: nat, n: nat)
    requires n == k * Pow256(width)
    ensures ToLittleEndian(n, width) == Zeros(width)
  {
    if width > 0 {
      var m: nat := k * Pow256(width - 1);
      assert n == 256 * m;
      ZeroLength(k, width - 1, m);
      assert n % 256 == 0 && n / 256 == m;
    }
  }

  lemma {:induction false} EmptyItemsEncode(n: nat)
    ensures EncodeItems(EmptyItems(n)) == Zeros(8 * n)
  {
    if n > 0 {
      EmptyItemsEncode(n - 1);
      assert EmptyItems(n)[1..] == EmptyItems(n - 1);
      ZeroLength(0, 4, 0);
      assert EncodeItem(Item([], [])) == Zeros(8);
    }
  }

  /**
   A domain of 2^32 zero bytes is written with length prefix 0, so it produces the byte stream of the
   empty domain followed by 2^29 empty items: past that length the encoding is ambiguous.
   */
  lemma LongDomainCollides()
    ensures Frame(Zeros(0x1_0000_0000)) == Frame([]) + EncodeItems(EmptyItems(0x2000_0000))
  {
    EmptyItemsEncode(0x2000_0000);
    assert Pow256(4) == 0x1_0000_0000;
    ZeroLength(0, 4, 0);
    ZeroLength(1, 4, 0x1_0000_0000);
  }
}

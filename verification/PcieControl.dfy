/**
 Finding the PCI Express capability in configuration space (section 6.7 of the PCI Local Bus
 Specification 3.0) and rewriting the maximum read request size in its Device Control register
 (section 7.8.4 of the PCI Express Base Specification 3.0).
 */
module PcieControl {
  import opened Results
  import opened Bytes
  import opened DeviceControl

  const CAPABILITY_LIST: bv16 := 0x10
  const PCI_EXPRESS: byte := 0x10

  datatype Control = Control(offset: nat, control: bv16, maxPayload: nat, maxReadRequest: nat)

  // ---------------------------------------------------------------------------------------------
  // The chain of capabilities

  function Pointer(b: byte): (r: nat)
    ensures r % 4 == 0 && r <= 252
    ensures r == (b & 0xfc) as int
  {
    PointerIsAligned(b);
    (b & 0xfc) as int
  }

  lemma PointerIsAligned(b: byte)
    ensures (b & 0xfc) as int % 4 == 0 && (b & 0xfc) as int <= 252
  {
  }

  /** Where the chain leads after `n` steps from byte 0x34. */
  function Hop(config: seq<byte>, n: nat): (r: nat)
    requires |config| >= 0x40
    ensures r % 4 == 0 && r <= 252
  {
    if n == 0 then Pointer(config[0x34])
    else if Hop(config, n - 1) + 1 < |config| then Pointer(config[Hop(config, n - 1) + 1])
    else 0
  }

  /** The first `n` capabilities are readable, different, and none of them is PCI Express. */
  ghost predicate Passes(config: seq<byte>, n: nat)
    requires |config| >= 0x40
  {
    && (forall k :: 0 <= k < n ==>
      Hop(config, k) != 0 && Hop(config, k) + 2 <= |config| && config[Hop(config, k)] != PCI_EXPRESS)
    && (forall i, j :: 0 <= i < j < n ==> Hop(config, i) != Hop(config, j))
  }

  ghost predicate Revisits(config: seq<byte>, n: nat)
    requires |config| >= 0x40
  {
    exists k :: 0 <= k < n && Hop(config, k) == Hop(config, n)
  }

  /** The walk ends at step `n`. */
  ghost predicate StopsAt(config: seq<byte>, n: nat)
    requires |config| >= 0x40
  {
    && Passes(config, n)
    && (|| Hop(config, n) == 0
        || Hop(config, n) + 2 > |config|
        || Revisits(config, n)
        || config[Hop(config, n)] == PCI_EXPRESS)
  }

  lemma StopsOnce(config: seq<byte>, m: nat, n: nat)
    requires |config| >= 0x40 && StopsAt(config, m) && StopsAt(config, n)
    ensures m == n
  {
  }

  function Little16(bytes: seq<byte>, offset: nat): Result<bv16> {
    if offset + 2 > |bytes| then Err(TruncatedConfiguration)
    else Ok(Join(bytes[offset], bytes[offset + 1]))
  }

  function Decode(offset: nat, control: bv16): Control {
    Control(offset, control, PayloadSize(control), ReadRequestSize(control))
  }

  /** What the end of the walk means. */
  ghost function Found(config: seq<byte>, n: nat): Result<Control>
    requires |config| >= 0x40 && StopsAt(config, n)
  {
    var pointer := Hop(config, n);
    if pointer == 0 then Err(CapabilityNotFound)
    else if pointer + 2 > |config| then Err(TruncatedConfiguration)
    else if Revisits(config, n) then Err(MalformedCapabilities)
    else ControlAt(config, pointer)
  }

  /** The Device Control register of the capability at `pointer`. */
  function ControlAt(config: seq<byte>, pointer: nat): (r: Result<Control>)
    ensures r.Ok? ==> r.value.offset == pointer && pointer + 10 <= |config|
    ensures r.Err? ==> r.error == TruncatedConfiguration
  {
    var control :- Little16(config, pointer + 8);
    Ok(Decode(pointer, control))
  }

  predicate HasCapabilities(config: seq<byte>) {
    |config| >= 0x40 && Join(config[6], config[7]) & CAPABILITY_LIST != 0
  }

  lemma CapabilityBit(lo: byte, hi: byte)
    ensures Join(lo, hi) & CAPABILITY_LIST != 0 <==> lo & 0x10 != 0
  {
  }

  /**
   `c` says what the bytes at its offset say: they begin a PCI Express capability, the register is the
   two bytes eight further on, and its two size fields are powers of two times 128.
   */
  predicate Reads(config: seq<byte>, c: Control) {
    && c.offset + 10 <= |config| && config[c.offset] == 0x10
    && Low(c.control) == config[c.offset + 8] && High(c.control) == config[c.offset + 9]
    && var register := Little(config[c.offset + 8], config[c.offset + 9]);
    && c.maxPayload == 128 * Power2(register / 32 % 8)
    && c.maxReadRequest == 128 * Power2(register / 4096 % 8)
  }

  lemma ControlReads(config: seq<byte>, pointer: nat)
    requires pointer < |config| && config[pointer] == 0x10
    ensures ControlAt(config, pointer).Ok? ==> Reads(config, ControlAt(config, pointer).value)
  {
    hide Join, Low, High, Little, Power2, PayloadSize, ReadRequestSize;
    if pointer + 10 <= |config| {
      SizesMean(config[pointer + 8], config[pointer + 9]);
      JoinedBytes(config[pointer + 8], config[pointer + 9]);
    }
  }

  lemma FoundReads(config: seq<byte>, n: nat)
    requires |config| >= 0x40 && StopsAt(config, n)
    ensures Found(config, n).Ok? ==> Reads(config, Found(config, n).value)
  {
    hide Hop, Reads, ControlAt;
    if Found(config, n).Ok? {
      ControlReads(config, Hop(config, n));
    }
  }

  // ---------------------------------------------------------------------------------------------
  // The walk

  ghost function Pointers(n: nat): set<nat> {
    set k: nat | 1 <= k <= n :: 4 * k
  }

  lemma {:induction false} PointerCount(n: nat)
    ensures |Pointers(n)| == n
  {
    if n == 0 {
      assert Pointers(0) == {};
    } else {
      PointerCount(n - 1);
      assert Pointers(n) == Pointers(n - 1) + {4 * n};
      assert 4 * n !in Pointers(n - 1);
    }
  }

  lemma PointerIsOneOf(pointer: nat)
    requires pointer % 4 == 0 && 0 < pointer <= 252
    ensures pointer in Pointers(63)
  {
    assert pointer == 4 * (pointer / 4);
  }

  lemma SubsetSize(a: set<nat>, b: set<nat>)
    requires a <= b
    ensures |a| <= |b|
  {
    var rest := b - a;
    assert b == a + rest;
  }

  /** `visited` holds the pointers of the first `n` steps, all different. */
  ghost predicate SeenBy(config: seq<byte>, n: nat, visited: set<nat>)
    requires |config| >= 0x40
  {
    && (forall p :: p in visited ==> exists k :: 0 <= k < n && Hop(config, k) == p)
    && (forall k :: 0 <= k < n ==> Hop(config, k) in visited)
    && visited <= Pointers(63) && |visited| == n <= 63
  }

  lemma PassesNone(config: seq<byte>)
    requires |config| >= 0x40
    ensures Passes(config, 0)
  {
  }

  lemma PassesMore(config: seq<byte>, n: nat)
    requires |config| >= 0x40 && Passes(config, n) && !Revisits(config, n)
    requires Hop(config, n) != 0 && Hop(config, n) + 2 <= |config| && config[Hop(config, n)] != PCI_EXPRESS
    ensures Passes(config, n + 1)
  {
  }

  lemma OneMore(config: seq<byte>, n: nat, visited: set<nat>)
    requires |config| >= 0x40 && SeenBy(config, n, visited)
    requires Hop(config, n) != 0 && Hop(config, n) !in visited
    ensures SeenBy(config, n + 1, visited + {Hop(config, n)})
  {
    hide Hop, Pointer, Pointers;
    var more := visited + {Hop(config, n)};
    PointerIsOneOf(Hop(config, n));
    PointerCount(63);
    SubsetSize(more, Pointers(63));
    forall p | p in more
      ensures exists k :: 0 <= k < n + 1 && Hop(config, k) == p
    {
      if p in visited {
        var k :| 0 <= k < n && Hop(config, k) == p;
        assert 0 <= k < n + 1 && Hop(config, k) == p;
      } else {
        assert 0 <= n < n + 1 && Hop(config, n) == p;
      }
    }
  }

  /** The first PCI Express capability of the chain; at most 63 capabilities are looked at. */
  method DecodePcieControl(config: seq<byte>) returns (r: Result<Control>, ghost n: nat)
    ensures r == Err(NoCapabilityList) <==> |config| < 0x40 || config[6] & 0x10 == 0
    ensures r.Ok? ==> Reads(config, r.value)
    ensures HasCapabilities(config) ==> n <= 63 && StopsAt(config, n) && r == Found(config, n)
    ensures r.Err? ==> r.error.FromConfiguration()
  {
    hide StopsAt, Found, Reads;
    if |config| >= 0x40 {
      CapabilityBit(config[6], config[7]);
    }
    if !HasCapabilities(config) {
      return Err(NoCapabilityList), 0;
    }
    r, n := FollowChain(config);
    FoundReads(config, n);
  }

  method FollowChain(config: seq<byte>) returns (r: Result<Control>, ghost n: nat)
    requires |config| >= 0x40
    ensures n <= 63 && StopsAt(config, n) && r == Found(config, n)
    ensures r.Err? ==> r.error.FromConfiguration() && r.error != NoCapabilityList
  {
    hide Passes, ControlAt, Pointer, Hop;
    n := 0;
    var pointer := FirstPointer(config);
    var visited: set<nat> := {};
    PassesNone(config);
    while pointer != 0
      invariant pointer == Hop(config, n) && Passes(config, n)
      invariant SeenBy(config, n, visited)
      decreases 63 - n
    {
      if pointer + 2 > |config| {
        return Err(TruncatedConfiguration), n;
      }
      if pointer in visited {
        return Err(MalformedCapabilities), n;
      }
      OneMore(config, n, visited);
      visited := visited + {pointer};
      if config[pointer] == PCI_EXPRESS {
        return ControlAt(config, pointer), n;
      }
      PassesMore(config, n);
      pointer := NextPointer(config, pointer, n);
      n := n + 1;
    }
    return Err(CapabilityNotFound), n;
  }

  function FirstPointer(config: seq<byte>): (r: nat)
    requires |config| >= 0x40
    ensures r == Hop(config, 0)
  {
    Pointer(config[0x34])
  }

  function NextPointer(config: seq<byte>, pointer: nat, ghost n: nat): (r: nat)
    requires |config| >= 0x40 && pointer == Hop(config, n) && pointer + 2 <= |config|
    ensures r == Hop(config, n + 1)
  {
    Pointer(config[pointer + 1])
  }

  // ---------------------------------------------------------------------------------------------
  // The maximum read request size

  /** Two values whose high bytes, read as links, lead to the same place. */
  lemma SameLink(v: bv16, w: bv16)
    ensures Pointer(High(v)) == Pointer(High(w)) <==> v & 0xfc00 == w & 0xfc00
  {
    var a, b := High(v) & 0xfc, High(w) & 0xfc;
    assert a == b <==> v & 0xfc00 == w & 0xfc00;
    if a as int == b as int {
      SameByte(a, b);
    }
  }

  lemma SameByte(a: byte, b: byte)
    requires a as int == b as int
    ensures a == b
  {
  }

  function Written(config: seq<byte>, offset: nat, value: bv16): (r: seq<byte>)
    requires offset + 2 <= |config|
    ensures |r| == |config|
  {
    config[offset := Low(value)][offset + 1 := High(value)]
  }

  /** The configuration space after the two-byte update of Device Control. */
  function Rewritten(config: seq<byte>, c: Control, requested: nat): (r: seq<byte>)
    requires c.offset + 10 <= |config| && Encoding(requested).Some?
    ensures |r| == |config|
  {
    Written(config, c.offset + 8, WithMrrs(c.control, Encoding(requested).value))
  }

  /** Only the byte above Device Control's low one differs, and only in its size field, which says `requested`. */
  predicate Requests(before: seq<byte>, after: seq<byte>, offset: nat, requested: nat) {
    && |after| == |before| && offset + 10 <= |before|
    && after == before[offset + 9 := after[offset + 9]]
    && after[offset + 9] & 0x8f == before[offset + 9] & 0x8f
    && 128 * Power2(Value(after[offset + 9]) / 16 % 8) == requested
  }

  lemma RewrittenRequests(config: seq<byte>, c: Control, requested: nat)
    requires c.offset + 10 <= |config| && Encoding(requested).Some?
    requires c.control == Join(config[c.offset + 8], config[c.offset + 9])
    ensures Requests(config, Rewritten(config, c, requested), c.offset, requested)
  {
    hide WithMrrs, Low, High, Join, Power2, Value, Size;
    var encoded := Encoding(requested).value;
    var updated := WithMrrs(c.control, encoded);
    var lo, hi := config[c.offset + 8], config[c.offset + 9];
    SizeInverts(requested);
    LowByteKept(c.control, encoded, lo, hi);
    HighByteKept(c.control, encoded);
    MrrsChanges(c.control, requested);
    SplitValue(updated);
    ReadRequestMeans(Low(updated), High(updated));
    assert config[c.offset + 8 := lo] == config;
  }

  lemma HighByteKept(control: bv16, encoded: bv16)
    requires encoded <= 5
    ensures High(WithMrrs(control, encoded)) & 0x8f == High(control) & 0x8f
  {
  }

  method SetMrrs(config: seq<byte>, requested: nat) returns (r: Result<seq<byte>>, ghost n: nat)
    ensures r == Err(InvalidArgument) <==> requested !in {128, 256, 512, 1024, 2048, 4096}
    ensures requested in {128, 256, 512, 1024, 2048, 4096} && HasCapabilities(config) ==> StopsAt(config, n)
    ensures r.Ok? ==>
      && Encoding(requested).Some? && HasCapabilities(config) && StopsAt(config, n) && Found(config, n).Ok?
      && Reads(config, Found(config, n).value)
      && r.value == Rewritten(config, Found(config, n).value, requested)
      && Requests(config, r.value, Found(config, n).value.offset, requested)
    ensures r.Err? && r.error != InvalidArgument ==>
      !HasCapabilities(config) || (StopsAt(config, n) && Found(config, n) == Err(r.error))
  {
    hide StopsAt, Found, Requests, Rewritten;
    n := 0;
    var encoded := Encoding(requested);
    if encoded.None? {
      return Err(InvalidArgument), n;
    }
    var found;
    found, n := DecodePcieControl(config);
    if found.Err? {
      return Err(found.error), n;
    }
    FoundJoins(config, n);
    RewrittenRequests(config, found.value, requested);
    return Ok(Rewritten(config, found.value, requested)), n;
  }

  lemma FoundJoins(config: seq<byte>, n: nat)
    requires |config| >= 0x40 && StopsAt(config, n) && Found(config, n).Ok?
    ensures var c := Found(config, n).value;
      c.offset + 10 <= |config| && c.control == Join(config[c.offset + 8], config[c.offset + 9])
  {
    hide Hop, Join;
  }

  // ---------------------------------------------------------------------------------------------
  // Decoding what was written

  /** The chain of `after` is that of `before` up to step `n`. */
  ghost predicate SamePath(before: seq<byte>, after: seq<byte>, n: nat)
    requires |before| == |after| >= 0x40
  {
    forall k :: 0 <= k <= n ==> Hop(after, k) == Hop(before, k)
  }

  /** No capability before the PCI Express one lies where its Device Control register is. */
  ghost predicate Clear(config: seq<byte>, n: nat, c: Control)
    requires |config| >= 0x40
  {
    forall k :: 0 <= k < n ==> Hop(config, k) != c.offset + 8
  }

  /** `setMrrs` found `c` at step `n` of the chain and left `after` in place of `config`. */
  ghost predicate Updates(config: seq<byte>, n: nat, c: Control, requested: nat, after: seq<byte>)
    requires |config| >= 0x40
  {
    && Encoding(requested).Some?
    && StopsAt(config, n) && Found(config, n) == Ok(c)
    && c.offset + 10 <= |config| && after == Rewritten(config, c, requested)
  }

  /** What the update amounts to: one byte, the high one of Device Control, is replaced. */
  ghost predicate Replaces(config: seq<byte>, n: nat, at: nat, high: byte, after: seq<byte>)
    requires |config| >= 0x40
  {
    && at < |config| && at % 4 == 1 && at != 0x34 && at != 6 && at != 7
    && after == config[at := high]
    && (forall k :: 0 <= k < n ==> Hop(config, k) + 2 <= |config|)
  }

  lemma UpdateReplaces(config: seq<byte>, n: nat, c: Control, requested: nat, after: seq<byte>)
    requires |config| >= 0x40 && Encoding(requested).Some? && Updates(config, n, c, requested, after)
    ensures Replaces(config, n, c.offset + 9, High(WithMrrs(c.control, Encoding(requested).value)), after)
    ensures c.offset == Hop(config, n) && High(c.control) == config[c.offset + 9]
    ensures c.maxReadRequest == ReadRequestSize(c.control)
  {
    hide WithMrrs, Pointer, Hop, Low, High, Join;
    SizeInverts(requested);
    LowByteKept(c.control, Encoding(requested).value, config[c.offset + 8], config[c.offset + 9]);
  }

  lemma LowByteKept(control: bv16, encoded: bv16, lo: byte, hi: byte)
    requires control == Join(lo, hi) && encoded <= 5
    ensures Low(WithMrrs(control, encoded)) == lo && High(control) == hi
  {
    JoinedBytes(lo, hi);
    OtherBits(control, encoded);
  }

  lemma HopAfter(config: seq<byte>, n: nat, at: nat, high: byte, after: seq<byte>, k: nat)
    requires |config| >= 0x40 && Replaces(config, n, at, high, after)
    requires k < n && Hop(after, k) == Hop(config, k)
    ensures Hop(after, k + 1) == if Hop(config, k) + 1 == at then Pointer(high) else Hop(config, k + 1)
  {
    hide Pointer;
  }

  /** The replaced byte, as a link, leads where the old one led exactly if the size does not change. */
  lemma LinkKept(control: bv16, requested: nat)
    requires Encoding(requested).Some?
    ensures Pointer(High(WithMrrs(control, Encoding(requested).value))) == Pointer(High(control))
      <==> ReadRequestSize(control) == requested
  {
    hide Pointer, WithMrrs, ReadRequestSize;
    var encoded := Encoding(requested).value;
    var updated := WithMrrs(control, encoded);
    SizeInverts(requested);
    MrrsChanges(control, requested);
    SameLink(updated, control);
    LinkBits(control, encoded);
  }

  /** The chain over the new bytes takes the same path exactly under a condition on the old ones. */
  lemma PathSurvives(config: seq<byte>, n: nat, c: Control, requested: nat, after: seq<byte>)
    requires |config| >= 0x40 && Encoding(requested).Some? && Updates(config, n, c, requested, after)
    ensures |after| == |config|
    ensures SamePath(config, after, n) <==> Clear(config, n, c) || c.maxReadRequest == requested
  {
    hide Updates, WithMrrs, Pointer, ReadRequestSize, High, Encoding;
    UpdateReplaces(config, n, c, requested, after);
    var high := High(WithMrrs(c.control, Encoding(requested).value));
    LinkKept(c.control, requested);
    PathUnder(config, n, c, high, after);
  }

  lemma PathUnder(config: seq<byte>, n: nat, c: Control, high: byte, after: seq<byte>)
    requires |config| >= 0x40 && Replaces(config, n, c.offset + 9, high, after)
    ensures SamePath(config, after, n) <==> Clear(config, n, c) || Pointer(high) == Pointer(config[c.offset + 9])
  {
    hide Pointer;
    var at := c.offset + 9;
    var kept := Pointer(high) == Pointer(config[at]);
    if SamePath(config, after, n) && !kept {
      forall k | 0 <= k < n
        ensures Hop(config, k) != c.offset + 8
      {
        HopAfter(config, n, at, high, after, k);
      }
    }
    if Clear(config, n, c) || kept {
      for k := 0 to n
        invariant forall j :: 0 <= j <= k ==> Hop(after, j) == Hop(config, j)
      {
        HopAfter(config, n, at, high, after, k);
      }
    }
  }

  /** Then decoding finds the same capability, with the requested size and everything else as it was. */
  lemma MrrsDecodes(config: seq<byte>, n: nat, c: Control, requested: nat, after: seq<byte>)
    requires HasCapabilities(config) && Encoding(requested).Some? && Updates(config, n, c, requested, after)
    requires Clear(config, n, c) || c.maxReadRequest == requested
    ensures HasCapabilities(after) && StopsAt(after, n)
    ensures var updated := WithMrrs(c.control, Encoding(requested).value);
      && Found(after, n) == Ok(Control(c.offset, updated, c.maxPayload, requested))
      && updated & !0x7000 == c.control & !0x7000
  {
    hide WithMrrs, High, Low, Join, Pointer, Hop, PayloadSize, ReadRequestSize, Passes, Revisits;
    PathSurvives(config, n, c, requested, after);
    UpdateReplaces(config, n, c, requested, after);
    StopsAfter(config, n, c.offset + 9, High(WithMrrs(c.control, Encoding(requested).value)), after);
    ControlAfter(config, c, requested);
    MrrsChanges(c.control, requested);
  }

  lemma StopsAfter(config: seq<byte>, n: nat, at: nat, high: byte, after: seq<byte>)
    requires |config| >= 0x40 && Replaces(config, n, at, high, after) && StopsAt(config, n)
    requires SamePath(config, after, n)
    requires Hop(config, n) + 2 <= |config|
    ensures StopsAt(after, n) && (Revisits(after, n) <==> Revisits(config, n))
  {
    hide Pointer, Hop, Passes, Revisits;
    PassesAfter(config, n, at, high, after);
    RevisitsAfter(config, n, after);
    assert after[Hop(config, n)] == config[Hop(config, n)];
  }

  lemma PassesAfter(config: seq<byte>, n: nat, at: nat, high: byte, after: seq<byte>)
    requires |config| >= 0x40 && Replaces(config, n, at, high, after) && Passes(config, n) && SamePath(config, after, n)
    ensures Passes(after, n)
  {
    hide Pointer, Hop;
    forall k | 0 <= k < n
      ensures Hop(after, k) == Hop(config, k) && after[Hop(config, k)] == config[Hop(config, k)]
    {
      assert Hop(config, k) != at;
    }
  }

  lemma RevisitsAfter(config: seq<byte>, n: nat, after: seq<byte>)
    requires |after| == |config| >= 0x40 && SamePath(config, after, n)
    ensures Revisits(after, n) <==> Revisits(config, n)
  {
    hide Pointer, Hop;
    forall k | 0 <= k < n
      ensures Hop(after, k) == Hop(after, n) <==> Hop(config, k) == Hop(config, n)
    {
    }
  }

  /** Reading Device Control back gives what was written. */
  lemma ControlAfter(config: seq<byte>, c: Control, requested: nat)
    requires c.offset + 10 <= |config| && Encoding(requested).Some?
    ensures ControlAt(Rewritten(config, c, requested), c.offset)
         == Ok(Decode(c.offset, WithMrrs(c.control, Encoding(requested).value)))
  {
    hide WithMrrs, Low, High, Join;
    SplitValue(WithMrrs(c.control, Encoding(requested).value));
  }

  // ---------------------------------------------------------------------------------------------
  // Exactly when decoding survives the update

  /** Where the chain over `config` leads from `start` after `n` steps. */
  function Onward(config: seq<byte>, start: nat, n: nat): nat {
    if n == 0 then start
    else if Onward(config, start, n - 1) + 1 < |config| then Pointer(config[Onward(config, start, n - 1) + 1])
    else 0
  }

  /** Capability `p` is readable, is not PCI Express, and was not among the first `k + 1` of the chain. */
  ghost predicate PassesBy(config: seq<byte>, k: nat, p: nat)
    requires |config| >= 0x40
  {
    && p != 0 && p + 2 <= |config| && config[p] != PCI_EXPRESS
    && forall h :: 0 <= h <= k ==> Hop(config, h) != p
  }

  /**
   The walk over `config` from `start`, with the chain up to step `k` counted as visited, meets its
   first PCI Express capability at `target`, after `j` steps.
   */
  ghost predicate Rejoins(config: seq<byte>, k: nat, start: nat, target: nat, j: nat)
    requires |config| >= 0x40
  {
    && Onward(config, start, j) == target
    && (forall i :: 0 <= i < j ==> PassesBy(config, k, Onward(config, start, i)))
    && (forall i, l :: 0 <= i < l < j ==> Onward(config, start, i) != Onward(config, start, l))
  }

  /** Where the link of the capability under the Device Control register leads after the update. */
  function NewLink(c: Control, requested: nat): nat
    requires Encoding(requested).Some?
  {
    Pointer(High(WithMrrs(c.control, Encoding(requested).value)))
  }

  /** Step `k` of the chain lies under the register, and the diverted chain still finds the capability. */
  ghost predicate Detours(config: seq<byte>, n: nat, c: Control, requested: nat, k: nat, j: nat)
    requires |config| >= 0x40 && Encoding(requested).Some?
  {
    k < n && Hop(config, k) == c.offset + 8 && Rejoins(config, k, NewLink(c, requested), c.offset, j)
  }

  /** The condition on the bytes before the update. */
  ghost predicate Survives(config: seq<byte>, n: nat, c: Control, requested: nat)
    requires |config| >= 0x40 && Encoding(requested).Some?
  {
    || Clear(config, n, c)
    || c.maxReadRequest == requested
    || exists k, j :: Detours(config, n, c, requested, k, j)
  }

  function Wanted(c: Control, requested: nat): Control
    requires Encoding(requested).Some?
  {
    Control(c.offset, WithMrrs(c.control, Encoding(requested).value), c.maxPayload, requested)
  }

  /** Decoding `config` gives `c`. */
  ghost predicate Decodes(config: seq<byte>, c: Control)
  {
    HasCapabilities(config) && exists m :: DecodesAt(config, m, c)
  }

  ghost predicate DecodesAt(config: seq<byte>, m: nat, c: Control)
    requires |config| >= 0x40
  {
    StopsAt(config, m) && Found(config, m) == Ok(c)
  }

  /** Up to step `k`, the one at which a byte may differ, both chains agree. */
  lemma {:induction false} SameUpTo(config: seq<byte>, n: nat, at: nat, high: byte, after: seq<byte>, k: nat, i: nat)
    requires |after| == |config| >= 0x40 && Replaces(config, n, at, high, after) && Passes(config, n)
    requires k < n && Hop(config, k) + 1 == at && i <= k
    ensures Hop(after, i) == Hop(config, i)
  {
    hide Pointer, Hop, Replaces;
    if i == 0 {
      SameStart(config, n, at, high, after);
    } else {
      SameUpTo(config, n, at, high, after, k, i - 1);
      assert Hop(config, i - 1) != Hop(config, k);
      HopAfter(config, n, at, high, after, i - 1);
    }
  }

  lemma SameStart(config: seq<byte>, n: nat, at: nat, high: byte, after: seq<byte>)
    requires |config| >= 0x40 && Replaces(config, n, at, high, after)
    ensures |after| == |config| && Hop(after, 0) == Hop(config, 0)
  {
    hide Pointer;
  }

  /** Behind it the chain over the new bytes is the old one from the new link on, until it comes back. */
  lemma {:induction false} OnwardAfter(config: seq<byte>, n: nat, at: nat, high: byte, after: seq<byte>, k: nat, i: nat)
    requires |after| == |config| >= 0x40 && Replaces(config, n, at, high, after) && Passes(config, n)
    requires k < n && Hop(config, k) + 1 == at
    requires forall l :: 0 <= l < i ==> Onward(config, Pointer(high), l) != Hop(config, k)
    ensures Hop(after, k + 1 + i) == Onward(config, Pointer(high), i)
  {
    hide Pointer, Passes;
    if i == 0 {
      SameUpTo(config, n, at, high, after, k, k);
      HopAfter(config, n, at, high, after, k);
    } else {
      OnwardAfter(config, n, at, high, after, k, i - 1);
      assert Onward(config, Pointer(high), i - 1) != Hop(config, k);
    }
  }

  /** The chain over `after` is the old one up to step `k` and then the detour from `start`. */
  ghost predicate Follows(config: seq<byte>, after: seq<byte>, k: nat, start: nat, j: nat)
    requires |after| == |config| >= 0x40
  {
    && (forall i :: 0 <= i <= k ==> Hop(after, i) == Hop(config, i))
    && (forall i :: 0 <= i <= j ==> Hop(after, k + 1 + i) == Onward(config, start, i))
  }

  lemma FollowsDetour(config: seq<byte>, n: nat, at: nat, high: byte, after: seq<byte>, k: nat, j: nat)
    requires |after| == |config| >= 0x40 && Replaces(config, n, at, high, after) && Passes(config, n)
    requires k < n && Hop(config, k) + 1 == at
    requires forall l :: 0 <= l < j ==> Onward(config, Pointer(high), l) != Hop(config, k)
    ensures Follows(config, after, k, Pointer(high), j)
  {
    hide Pointer, Passes, Replaces, Hop, Onward;
    forall i | 0 <= i <= k
      ensures Hop(after, i) == Hop(config, i)
    {
      SameUpTo(config, n, at, high, after, k, i);
    }
    forall i | 0 <= i <= j
      ensures Hop(after, k + 1 + i) == Onward(config, Pointer(high), i)
    {
      OnwardAfter(config, n, at, high, after, k, i);
    }
  }

  /** A walk that passes the first steps and then the detour passes them all. */
  lemma DetourPasses(config: seq<byte>, n: nat, at: nat, high: byte, after: seq<byte>, k: nat, target: nat, j: nat)
    requires |config| >= 0x40 && Replaces(config, n, at, high, after) && Passes(config, n)
    requires k < n && Rejoins(config, k, Pointer(high), target, j) && Follows(config, after, k, Pointer(high), j)
    ensures Passes(after, k + 1 + j)
  {
    hide Pointer, Hop, Onward;
    var start, m := Pointer(high), k + 1 + j;
    forall i | 0 <= i < m
      ensures Hop(after, i) != 0 && Hop(after, i) + 2 <= |after| && after[Hop(after, i)] != PCI_EXPRESS
    {
      assert i > k ==> Hop(after, k + 1 + (i - k - 1)) == Onward(config, start, i - k - 1);
      assert i > k ==> PassesBy(config, k, Onward(config, start, i - k - 1));
      assert Hop(after, i) != at;
    }
    forall i, l | 0 <= i < l < m
      ensures Hop(after, i) != Hop(after, l)
    {
      assert l > k ==> Hop(after, k + 1 + (l - k - 1)) == Onward(config, start, l - k - 1);
      assert i > k ==> Hop(after, k + 1 + (i - k - 1)) == Onward(config, start, i - k - 1);
      assert l > k ==> PassesBy(config, k, Onward(config, start, l - k - 1));
    }
  }

  /** And the other way round. */
  lemma PassesDetour(config: seq<byte>, n: nat, at: nat, high: byte, after: seq<byte>, k: nat, j: nat)
    requires |config| >= 0x40 && Replaces(config, n, at, high, after) && Passes(after, k + 1 + j)
    requires k < n && Follows(config, after, k, Pointer(high), j)
    ensures Rejoins(config, k, Pointer(high), Hop(after, k + 1 + j), j)
  {
    hide Pointer, Hop, Onward;
    var start := Pointer(high);
    forall i | 0 <= i < j
      ensures PassesBy(config, k, Onward(config, start, i))
    {
      assert Hop(after, k + 1 + i) == Onward(config, start, i);
      assert Hop(after, k + 1 + i) != at;
    }
    forall i, l | 0 <= i < l < j
      ensures Onward(config, start, i) != Onward(config, start, l)
    {
      assert Hop(after, k + 1 + i) != Hop(after, k + 1 + l);
    }
  }

  lemma DetourDecodes(config: seq<byte>, n: nat, c: Control, requested: nat, after: seq<byte>, k: nat, j: nat)
    requires HasCapabilities(config) && Encoding(requested).Some? && Updates(config, n, c, requested, after)
    requires Detours(config, n, c, requested, k, j)
    ensures HasCapabilities(after) && DecodesAt(after, k + 1 + j, Wanted(c, requested))
  {
    hide WithMrrs, High, Low, Join, Pointer, Hop, Onward, PayloadSize, ReadRequestSize, Passes;
    UpdateReplaces(config, n, c, requested, after);
    var at, high, m := c.offset + 9, High(WithMrrs(c.control, Encoding(requested).value)), k + 1 + j;
    FollowsDetour(config, n, at, high, after, k, j);
    DetourPasses(config, n, at, high, after, k, c.offset, j);
    assert Hop(after, k + 1 + j) == Onward(config, Pointer(high), j);
    EndsAt(config, c, after, m);
    ControlAfter(config, c, requested);
    MrrsChanges(c.control, requested);
  }

  /** A chain that passes and then is at a PCI Express capability stops there, for the first time. */
  lemma EndsAt(config: seq<byte>, c: Control, after: seq<byte>, m: nat)
    requires |after| >= 0x40 && Passes(after, m) && Hop(after, m) == c.offset
    requires c.offset + 10 <= |after| && c.offset != 0 && after[c.offset] == PCI_EXPRESS
    ensures StopsAt(after, m) && !Revisits(after, m) && Found(after, m) == ControlAt(after, c.offset)
  {
    hide Pointer, Hop, ControlAt;
  }

  lemma FoundAt(config: seq<byte>, m: nat, c: Control)
    requires |config| >= 0x40 && DecodesAt(config, m, c)
    ensures Passes(config, m) && Hop(config, m) == c.offset
    ensures c.offset + 2 <= |config| && config[c.offset] == PCI_EXPRESS
  {
    hide Pointer, Hop;
  }

  lemma DecodeDetours(config: seq<byte>, n: nat, c: Control, requested: nat, after: seq<byte>, k: nat, m: nat)
    requires HasCapabilities(config) && Encoding(requested).Some? && Updates(config, n, c, requested, after)
    requires |after| == |config| && DecodesAt(after, m, Wanted(c, requested))
    requires k < n && Hop(config, k) == c.offset + 8
    ensures k < m && Detours(config, n, c, requested, k, m - k - 1)
  {
    hide WithMrrs, High, Pointer, Hop, Onward, Found, StopsAt, Replaces, Passes, Rejoins;
    UpdateReplaces(config, n, c, requested, after);
    FoundAt(config, n, c);
    FoundAt(after, m, Wanted(c, requested));
    var at, high := c.offset + 9, High(WithMrrs(c.control, Encoding(requested).value));
    forall i | 0 <= i <= k
      ensures Hop(after, i) == Hop(config, i)
    {
      SameUpTo(config, n, at, high, after, k, i);
    }
    LaterThan(config, n, c, after, k, m);
    NotBack(config, n, at, high, after, k, m - k - 1);
    PassesDetour(config, n, at, high, after, k, m - k - 1);
  }

  /** The capability is not among the first steps of the old chain. */
  lemma LaterThan(config: seq<byte>, n: nat, c: Control, after: seq<byte>, k: nat, m: nat)
    requires |after| == |config| >= 0x40 && Passes(config, n) && k < n
    requires c.offset < |config| && config[c.offset] == PCI_EXPRESS && Hop(after, m) == c.offset
    requires forall i :: 0 <= i <= k ==> Hop(after, i) == Hop(config, i)
    ensures k < m
  {
    hide Pointer, Hop;
  }

  /** A chain that passes without a repetition does not come back to step `k`. */
  lemma {:induction false} NotBack(config: seq<byte>, n: nat, at: nat, high: byte, after: seq<byte>, k: nat, j: nat)
    requires |after| == |config| >= 0x40 && Replaces(config, n, at, high, after) && Passes(config, n)
    requires k < n && Hop(config, k) + 1 == at && Passes(after, k + 1 + j)
    requires forall i :: 0 <= i <= k ==> Hop(after, i) == Hop(config, i)
    ensures forall l :: 0 <= l < j ==> Onward(config, Pointer(high), l) != Hop(config, k)
    ensures Follows(config, after, k, Pointer(high), j)
  {
    hide Pointer, Hop, Onward, Replaces;
    if j > 0 {
      NotBack(config, n, at, high, after, k, j - 1);
      assert Hop(after, k + 1 + (j - 1)) == Onward(config, Pointer(high), j - 1);
      assert Hop(after, k) != Hop(after, k + 1 + (j - 1));
    }
    FollowsDetour(config, n, at, high, after, k, j);
  }

  /**
   Decoding the new bytes gives the same capability, the requested size and everything else as it was
   if and only if the old bytes satisfy the condition: nothing overlaps the register, or the size does
   not change, or the diverted chain still comes to the capability first.
   */
  lemma DecodesExactly(config: seq<byte>, n: nat, c: Control, requested: nat, after: seq<byte>)
    requires HasCapabilities(config) && Encoding(requested).Some? && Updates(config, n, c, requested, after)
    ensures Decodes(after, Wanted(c, requested)) <==> Survives(config, n, c, requested)
  {
    hide WithMrrs, High, Pointer, Hop, PayloadSize, ReadRequestSize, Found, StopsAt, Updates, Detours, Encoding;
    if Clear(config, n, c) || c.maxReadRequest == requested {
      MrrsDecodes(config, n, c, requested, after);
      assert DecodesAt(after, n, Wanted(c, requested));
    } else {
      var k :| 0 <= k < n && Hop(config, k) == c.offset + 8;
      if j: nat, h: nat :| Detours(config, n, c, requested, h, j) {
        DetourDecodes(config, n, c, requested, after, h, j);
      }
      PathSurvives(config, n, c, requested, after);
      if Decodes(after, Wanted(c, requested)) {
        var m :| DecodesAt(after, m, Wanted(c, requested));
        DecodeDetours(config, n, c, requested, after, k, m);
      }
    }
  }

  /** A chain whose first header lies at 0x48, inside the PCI Express capability at 0x40. */
  function Overlapping(): seq<byte> {
    seq(0x50, i => if i == 6 then 0x10 else if i == 0x34 then 0x48
                   else if i == 0x48 then 0x09 else if i == 0x49 then 0x40
                   else if i == 0x40 then 0x10 else 0)
  }

  /** Without the condition the update can cut the chain: here 2048 bytes become 128 and the capability is lost. */
  lemma OverlapLosesCapability()
    ensures var config, c := Overlapping(), Decode(0x40, 0x4009);
      && HasCapabilities(config) && StopsAt(config, 1) && Found(config, 1) == Ok(c) && !Clear(config, 1, c)
      && var after := Rewritten(config, c, 128);
      HasCapabilities(after) && StopsAt(after, 1) && Found(after, 1) == Err(CapabilityNotFound)
  {
    var config, c := Overlapping(), Decode(0x40, 0x4009);
    assert Join(0x09, 0x40) == 0x4009 && Join(0x10, 0) == 0x10;
    assert Pointer(0x48) == 0x48 && Pointer(0x40) == 0x40 && Pointer(0) == 0;
    assert Hop(config, 0) == 0x48;
    assert Hop(config, 1) == 0x40;
    var after := Rewritten(config, c, 128);
    assert WithMrrs(0x4009, 0) == 0x0009 && Low(0x0009) == 0x09 && High(0x0009) == 0;
    assert Hop(after, 0) == 0x48;
    assert Hop(after, 1) == 0;
  }

  /** The same chain with a header at 0x50 that leads to 0x40. */
  function Rejoining(): seq<byte> {
    Overlapping() + [0x09, 0x40, 0, 0]
  }

  /** Outside the simple condition decoding may still succeed: here 2048 bytes become 4096. */
  lemma OverlapMayRejoin()
    ensures var config, c := Rejoining(), Decode(0x40, 0x4009);
      && HasCapabilities(config) && StopsAt(config, 1) && Found(config, 1) == Ok(c)
      && !Clear(config, 1, c) && c.maxReadRequest != 4096 && Detours(config, 1, c, 4096, 0, 1)
  {
    var config, c := Rejoining(), Decode(0x40, 0x4009);
    assert Join(0x09, 0x40) == 0x4009 && Join(0x10, 0) == 0x10;
    assert Pointer(0x48) == 0x48 && Pointer(0x40) == 0x40 && Pointer(0x50) == 0x50;
    assert Hop(config, 0) == 0x48;
    assert Hop(config, 1) == 0x40;
    assert WithMrrs(0x4009, 5) == 0x5009 && High(0x5009) == 0x50;
    assert Onward(config, 0x50, 0) == 0x50;
    assert Onward(config, 0x50, 1) == 0x40;
  }
}

/** rtw_ieee802_11_parse_elems of core/rtw_ieee80211.c: one pass over the elements, one slot per kind. */
module IeParse {
  import opened Buffers
  import opened Ie

  datatype Slot =
    | Ssid | SuppRates | FhParams | DsParams | CfParams | Tim | IbssParams | Challenge | ErpInfo | ExtSuppRates
    | Wpa | Rsn | Wme | WmeTspec | Wps | PowerCap | SuppChannels | MobilityDomain | FastTransition | TimeoutInterval
    | HtCapabilities | HtOperation | VendorHtCap | VhtCapabilities | VhtOperation | VhtOpModeNotify

  datatype Result = ParseOk | ParseUnknown | ParseFailed

  /** A pointer into the buffer and a length. */
  datatype Extent = Extent(start: nat, len: nat)

  function Be24(s: seq<byte>): (n: int)
    requires |s| >= 3
  {
    var high: int, middle: int, low: int := s[0], s[1], s[2];
    high * 65536 + middle * 256 + low
  }

  const OUI_MICROSOFT := 0x0050F2
  const OUI_BROADCOM := 0x00904C

  /** Vendor elements are told apart by OUI, type and, for WME, subtype; a short or unfamiliar one has no slot. */
  function VendorSlot(body: seq<byte>): (r: Option<Slot>) {
    if |body| < 4 then None
    else if Be24(body) == OUI_MICROSOFT then
      if body[3] == 1 then Some(Wpa)
      else if body[3] == 2 then
        if |body| < 5 then None
        else if body[4] == 0 || body[4] == 1 then Some(Wme)
        else if body[4] == 2 then Some(WmeTspec)
        else None
      else if body[3] == 4 then Some(Wps)
      else None
    else if Be24(body) == OUI_BROADCOM && body[3] == 0x33 then Some(VendorHtCap)
    else None
  }

  function IdSlot(id: byte): (r: Option<Slot>) {
    match id
    case 0 => Some(Ssid)
    case 1 => Some(SuppRates)
    case 2 => Some(FhParams)
    case 3 => Some(DsParams)
    case 4 => Some(CfParams)
    case 5 => Some(Tim)
    case 6 => Some(IbssParams)
    case 16 => Some(Challenge)
    case 42 => Some(ErpInfo)
    case 50 => Some(ExtSuppRates)
    case 48 => Some(Rsn)
    case 33 => Some(PowerCap)
    case 36 => Some(SuppChannels)
    case 54 => Some(MobilityDomain)
    case 55 => Some(FastTransition)
    case 56 => Some(TimeoutInterval)
    case 45 => Some(HtCapabilities)
    case 61 => Some(HtOperation)
    case 191 => Some(VhtCapabilities)
    case 192 => Some(VhtOperation)
    case 193 => Some(VhtOpModeNotify)
    case _ => None
  }

  function SlotOf(e: Element): (r: Option<Slot>) {
    if e.id == VENDOR_SPECIFIC then VendorSlot(e.body) else IdSlot(e.id)
  }

  /** Outside the vendor elements every id has a slot of its own. */
  lemma IdsDoNotShareSlots(d: Element, e: Element)
    requires d.id != VENDOR_SPECIFIC && SlotOf(d).Some?
    ensures SlotOf(d) == SlotOf(e) <==> d.id == e.id
  {
  }

  predicate Fills(e: Element, slot: Slot) {
    SlotOf(e) == Some(slot)
  }

  /** What one more element, with its body at `start`, does to the slots. */
  function Record(slots: map<Slot, Extent>, e: Element, start: nat): (r: map<Slot, Extent>) {
    match SlotOf(e)
    case Some(slot) => slots[slot := Extent(start, |e.body|)]
    case None => slots
  }

  function Recorded(slots: map<Slot, Extent>, es: seq<Element>, a: nat): (r: map<Slot, Extent>)
    decreases |es|
  {
    if es == [] then slots else Recorded(Record(slots, es[0], a + 2), es[1..], a + Size(es[0]))
  }

  predicate SomeUnknown(es: seq<Element>) {
    exists k :: 0 <= k < |es| && SlotOf(es[k]).None?
  }

  lemma PrefixSize(es: seq<Element>, k: nat)
    requires 1 <= k <= |es|
    ensures TotalSize(es[..k]) == Size(es[0]) + TotalSize(es[1..][..k - 1])
  {
    assert es[..k][0] == es[0] && es[..k][1..] == es[1..][..k - 1];
  }

  /** A slot no element fills keeps what it had. */
  lemma {:induction false} SlotStays(slots: map<Slot, Extent>, es: seq<Element>, a: nat, slot: Slot)
    requires forall j :: 0 <= j < |es| ==> !Fills(es[j], slot)
    ensures slot in Recorded(slots, es, a) <==> slot in slots
    ensures slot in slots ==> Recorded(slots, es, a)[slot] == slots[slot]
    decreases |es|
  {
    if es != [] {
      SlotStays(Record(slots, es[0], a + 2), es[1..], a + Size(es[0]), slot);
    }
  }

  /** A slot ends with the extent of the last element that fills it. */
  lemma {:induction false} SlotIsLast(slots: map<Slot, Extent>, es: seq<Element>, a: nat, slot: Slot, k: nat)
    requires k < |es| && Fills(es[k], slot)
    requires forall j :: k < j < |es| ==> !Fills(es[j], slot)
    ensures slot in Recorded(slots, es, a)
    ensures Recorded(slots, es, a)[slot] == Extent(a + TotalSize(es[..k]) + 2, |es[k].body|)
    decreases |es|
  {
    var next := Record(slots, es[0], a + 2);
    if k == 0 {
      assert es[..k] == [];
      SlotStays(next, es[1..], a + Size(es[0]), slot);
    } else {
      SlotIsLast(next, es[1..], a + Size(es[0]), slot, k - 1);
      PrefixSize(es, k);
    }
  }

  lemma {:induction false} LaidAt(s: seq<byte>, a: nat, es: seq<Element>, k: nat)
    requires Laid(s, a, es) && k < |es|
    ensures At(s, a + TotalSize(es[..k]), es[k])
    decreases k
  {
    if k == 0 {
      assert es[..k] == [];
    } else {
      LaidAt(s, a + Size(es[0]), es[1..], k - 1);
      PrefixSize(es, k);
    }
  }

  predicate LastFills(es: seq<Element>, slot: Slot, k: nat) {
    k < |es| && Fills(es[k], slot) && forall j :: k < j < |es| ==> !Fills(es[j], slot)
  }

  predicate Points(s: seq<byte>, x: Extent, body: seq<byte>) {
    x.start + x.len <= |s| && s[x.start..x.start + x.len] == body
  }

  lemma SlotOfLaid(s: seq<byte>, es: seq<Element>, slot: Slot, k: nat)
    requires Laid(s, 0, es) && LastFills(es, slot, k)
    ensures slot in Recorded(map[], es, 0) && Points(s, Recorded(map[], es, 0)[slot], es[k].body)
  {
    SlotIsLast(map[], es, 0, slot, k);
    LaidAt(s, 0, es, k);
  }

  lemma SlotsHoldLast(s: seq<byte>, slot: Slot)
    ensures slot in Recorded(map[], Leading(s, 0), 0) <==> exists k: nat :: LastFills(Leading(s, 0), slot, k)
    ensures forall k: nat :: LastFills(Leading(s, 0), slot, k) ==>
              Points(s, Recorded(map[], Leading(s, 0), 0)[slot], Leading(s, 0)[k].body)
  {
    var es := Leading(s, 0);
    LeadingLies(s, 0);
    forall k: nat | LastFills(es, slot, k)
      ensures slot in Recorded(map[], es, 0) && Points(s, Recorded(map[], es, 0)[slot], es[k].body)
    {
      SlotOfLaid(s, es, slot, k);
    }
    if forall k :: 0 <= k < |es| ==> !Fills(es[k], slot) {
      SlotStays(map[], es, 0, slot);
    } else {
      var last := LastFiller(es, slot);
      assert LastFills(es, slot, last);
    }
  }

  // ---------------------------------------------------------------------------------------
  // Slots by name
  // ---------------------------------------------------------------------------------------

  /** The element ids of Table 8-54 of IEEE Std 802.11-2012, and of 802.11ac, by the name of the element. */
  function ElementId(slot: Slot): Option<byte> {
    if slot == Ssid then Some(0) else if slot == SuppRates then Some(1) else if slot == FhParams then Some(2)
    else if slot == DsParams then Some(3) else if slot == CfParams then Some(4) else if slot == Tim then Some(5)
    else if slot == IbssParams then Some(6) else if slot == Challenge then Some(16)
    else if slot == PowerCap then Some(33) else if slot == SuppChannels then Some(36)
    else if slot == ErpInfo then Some(42) else if slot == HtCapabilities then Some(45)
    else if slot == Rsn then Some(48) else if slot == ExtSuppRates then Some(50)
    else if slot == MobilityDomain then Some(54) else if slot == FastTransition then Some(55)
    else if slot == TimeoutInterval then Some(56) else if slot == HtOperation then Some(61)
    else if slot == VhtCapabilities then Some(191) else if slot == VhtOperation then Some(192)
    else if slot == VhtOpModeNotify then Some(193) else None
  }

  predicate Begins(body: seq<byte>, front: seq<byte>) {
    |front| <= |body| && body[..|front|] == front
  }

  /** How the body of a vendor element for this slot begins: OUI, type and subtype. */
  predicate VendorBegins(body: seq<byte>, slot: Slot) {
    || (slot == Wpa && Begins(body, [0x00, 0x50, 0xF2, 1]))
    || (slot == Wme && (Begins(body, [0x00, 0x50, 0xF2, 2, 0]) || Begins(body, [0x00, 0x50, 0xF2, 2, 1])))
    || (slot == WmeTspec && Begins(body, [0x00, 0x50, 0xF2, 2, 2]))
    || (slot == Wps && Begins(body, [0x00, 0x50, 0xF2, 4]))
    || (slot == VendorHtCap && Begins(body, [0x00, 0x90, 0x4C, 0x33]))
  }

  /** The element is the one the slot is named after. */
  predicate Carries(e: Element, slot: Slot) {
    if e.id == VENDOR_SPECIFIC then VendorBegins(e.body, slot) else ElementId(slot) == Some(e.id)
  }

  lemma OuiBegins(body: seq<byte>, a: byte, b: byte, c: byte)
    requires |body| >= 3
    ensures Be24(body) == a as int * 65536 + b as int * 256 + c as int <==> body[0] == a && body[1] == b && body[2] == c
  {
  }

  lemma BeginsWithFour(body: seq<byte>, a: byte, b: byte, c: byte, d: byte)
    requires |body| >= 4
    ensures Begins(body, [a, b, c, d]) <==> body[0] == a && body[1] == b && body[2] == c && body[3] == d
  {
    if Begins(body, [a, b, c, d]) {
      assert body[..4][0] == a && body[..4][1] == b && body[..4][2] == c && body[..4][3] == d;
    }
  }

  lemma BeginsWithFive(body: seq<byte>, a: byte, b: byte, c: byte, d: byte, e: byte)
    requires |body| >= 4
    ensures Begins(body, [a, b, c, d, e]) <==> |body| >= 5 && Begins(body, [a, b, c, d]) && body[4] == e
  {
    if |body| >= 5 {
      assert body[..5] == body[..4] + [body[4]] && [a, b, c, d, e] == [a, b, c, d] + [e];
    }
  }

  lemma VendorExactly(body: seq<byte>, slot: Slot)
    ensures VendorSlot(body) == Some(slot) <==> VendorBegins(body, slot)
  {
    if |body| >= 4 {
      OuiBegins(body, 0x00, 0x50, 0xF2);
      OuiBegins(body, 0x00, 0x90, 0x4C);
      BeginsWithFour(body, 0x00, 0x50, 0xF2, 1);
      BeginsWithFour(body, 0x00, 0x50, 0xF2, 2);
      BeginsWithFour(body, 0x00, 0x50, 0xF2, 4);
      BeginsWithFour(body, 0x00, 0x90, 0x4C, 0x33);
      BeginsWithFive(body, 0x00, 0x50, 0xF2, 2, 0);
      BeginsWithFive(body, 0x00, 0x50, 0xF2, 2, 1);
      BeginsWithFive(body, 0x00, 0x50, 0xF2, 2, 2);
    }
  }

  /** An element fills a slot exactly when it is the one the slot is named after. */
  lemma FillsExactly(e: Element, slot: Slot)
    ensures Fills(e, slot) <==> Carries(e, slot)
  {
    if e.id == VENDOR_SPECIFIC {
      VendorExactly(e.body, slot);
    } else {
      IdExactly(e.id, slot);
    }
  }

  lemma IdExactly(id: byte, slot: Slot)
    ensures IdSlot(id) == Some(slot) <==> ElementId(slot) == Some(id)
  {
    if ElementId(slot) == Some(id) {
      IdOfSlot(id, slot);
    }
    if IdSlot(id) == Some(slot) {
      SlotOfId(id, slot);
    }
  }

  lemma IdOfSlot(id: byte, slot: Slot)
    requires ElementId(slot) == Some(id)
    ensures IdSlot(id) == Some(slot)
  {
  }

  lemma SlotOfId(id: byte, slot: Slot)
    requires IdSlot(id) == Some(slot)
    ensures ElementId(slot) == Some(id)
  {
  }

  predicate LastCarries(es: seq<Element>, slot: Slot, k: nat) {
    k < |es| && Carries(es[k], slot) && forall j :: k < j < |es| ==> !Carries(es[j], slot)
  }

  lemma SameLast(es: seq<Element>, slot: Slot, k: nat)
    ensures LastFills(es, slot, k) <==> LastCarries(es, slot, k)
  {
    forall j | 0 <= j < |es|
      ensures Fills(es[j], slot) <==> Carries(es[j], slot)
    {
      FillsExactly(es[j], slot);
    }
  }

  /** After parsing, a slot is set exactly when the element it is named after is there, and it points at
      the last such element's body. */
  lemma SlotsHoldLastBodies(s: seq<byte>, slot: Slot)
    ensures slot in Recorded(map[], Leading(s, 0), 0) <==> exists k: nat :: LastCarries(Leading(s, 0), slot, k)
    ensures forall k: nat :: LastCarries(Leading(s, 0), slot, k) ==>
              Points(s, Recorded(map[], Leading(s, 0), 0)[slot], Leading(s, 0)[k].body)
  {
    SlotsHoldLast(s, slot);
    forall k: nat
      ensures LastFills(Leading(s, 0), slot, k) <==> LastCarries(Leading(s, 0), slot, k)
    {
      SameLast(Leading(s, 0), slot, k);
    }
  }

  lemma {:induction false} LastFiller(es: seq<Element>, slot: Slot) returns (k: nat)
    requires exists j :: 0 <= j < |es| && Fills(es[j], slot)
    ensures k < |es| && Fills(es[k], slot) && forall j :: k < j < |es| ==> !Fills(es[j], slot)
  {
    var n := |es| - 1;
    if Fills(es[n], slot) {
      k := n;
    } else {
      k := LastFiller(es[..n], slot);
    }
  }

  lemma ParseStep(s: seq<byte>, pos: nat, slots: map<Slot, Extent>, pos1: nat, slots1: map<Slot, Extent>)
    requires Starts(s, pos)
    requires pos1 == pos + Size(ElementAt(s, pos)) && slots1 == Record(slots, ElementAt(s, pos), pos + 2)
    ensures pos + TotalSize(Leading(s, pos)) == pos1 + TotalSize(Leading(s, pos1))
    ensures Recorded(slots, Leading(s, pos), pos) == Recorded(slots1, Leading(s, pos1), pos1)
    ensures SomeUnknown(Leading(s, pos)) <==> SlotOf(ElementAt(s, pos)).None? || SomeUnknown(Leading(s, pos1))
  {
    var es, e, rest := Leading(s, pos), ElementAt(s, pos), Leading(s, pos1);
    assert es[0] == e && es[1..] == rest;
    UnknownHead(es);
  }

  lemma UnknownHead(es: seq<Element>)
    requires es != []
    ensures SomeUnknown(es) <==> SlotOf(es[0]).None? || SomeUnknown(es[1..])
  {
    assert forall k :: 1 <= k < |es| ==> es[k] == es[1..][k - 1];
    assert forall k :: 0 <= k < |es| - 1 ==> es[1..][k] == es[k + 1];
  }

  /**
   Parse a buffer.  It succeeds exactly on whole buffers, says "unknown"
   exactly when some element has no slot, and records the whole elements at
   the front even when it fails.
   */
  method ParseElems(s: seq<byte>) returns (r: Result, slots: map<Slot, Extent>)
    ensures r == ParseFailed <==> !Whole(s)
    ensures r == ParseUnknown <==> Whole(s) && SomeUnknown(Leading(s, 0))
    ensures slots == Recorded(map[], Leading(s, 0), 0)
  {
    slots := map[];
    var left, pos, unknown := |s|, 0, 0;
    while left >= 2
      invariant 0 <= left && 0 <= pos && pos + left == |s| && 0 <= unknown
      invariant Parsing(s, pos, slots, unknown > 0)
    {
      var id, len := s[pos], s[pos + 1];
      if len > left - 2 {
        ParsingStops(s, pos, slots, unknown > 0);
        r := ParseFailed;
        return;
      }
      var known;
      slots, known := ParseOne(s, pos, id, len, slots, unknown > 0);
      if !known {
        unknown := unknown + 1;
      }
      left := left - 2 - len;
      pos := pos + 2 + len;
    }
    ParsingStops(s, pos, slots, unknown > 0);
    r := if left > 0 then ParseFailed else if unknown > 0 then ParseUnknown else ParseOk;
  }

  /** One element. */
  method ParseOne(s: seq<byte>, pos: nat, id: byte, len: byte, slots: map<Slot, Extent>, ghost some: bool)
    returns (r: map<Slot, Extent>, known: bool)
    requires Starts(s, pos) && id == s[pos] && len == s[pos + 1] && Parsing(s, pos, slots, some)
    ensures Parsing(s, pos + 2 + len, r, some || !known)
  {
    r, known := Store(s, pos, id, len, slots);
    ParsingGoesOn(s, pos, slots, some, pos + 2 + len, r, some || !known);
  }

  /** The switch on the element id. */
  method Store(s: seq<byte>, pos: nat, id: byte, len: byte, slots: map<Slot, Extent>) returns (r: map<Slot, Extent>,
               known: bool)
    requires Starts(s, pos) && id == s[pos] && len == s[pos + 1]
    ensures r == Record(slots, ElementAt(s, pos), pos + 2) && (known <==> SlotOf(ElementAt(s, pos)).Some?)
  {
    var slot := if id == VENDOR_SPECIFIC then VendorSlot(s[pos + 2..pos + 2 + len]) else IdSlot(id);
    r, known := slots, slot.Some?;
    if known {
      r := slots[slot.value := Extent(pos + 2, len)];
    }
  }

  /** What is recorded so far, and the elements from `pos` on, make up the result for the whole buffer. */
  ghost predicate Parsing(s: seq<byte>, pos: nat, slots: map<Slot, Extent>, some: bool) {
    && pos + TotalSize(Leading(s, pos)) == TotalSize(Leading(s, 0))
    && Recorded(slots, Leading(s, pos), pos) == Recorded(map[], Leading(s, 0), 0)
    && (some || SomeUnknown(Leading(s, pos)) <==> SomeUnknown(Leading(s, 0)))
  }

  lemma ParsingGoesOn(s: seq<byte>, pos: nat, slots: map<Slot, Extent>, some: bool, pos1: nat,
                      slots1: map<Slot, Extent>, some1: bool)
    requires Parsing(s, pos, slots, some) && Starts(s, pos)
    requires var e := ElementAt(s, pos);
             pos1 == pos + Size(e) && slots1 == Record(slots, e, pos + 2) && some1 == (some || SlotOf(e).None?)
    ensures Parsing(s, pos1, slots1, some1)
  {
    ParseStep(s, pos, slots, pos1, slots1);
  }

  lemma ParsingStops(s: seq<byte>, pos: nat, slots: map<Slot, Extent>, some: bool)
    requires Parsing(s, pos, slots, some) && pos <= |s| && !Starts(s, pos)
    ensures Whole(s) <==> pos == |s|
    ensures slots == Recorded(map[], Leading(s, 0), 0)
    ensures some <==> SomeUnknown(Leading(s, 0))
  {
  }
}

/** Tag-length-value descriptors: the builders that print them and the parsers that read them back. */
module Descriptors {
  import opened Bytes
  import opened Wrappers

  function Min(a: nat, b: nat): nat {
    if a < b then a else b
  }

  function Cut(s: seq<Byte>): (r: seq<Byte>) {
    s[..Min(|s|, 255)]
  }

  // ---- The TLV envelope ----

  function Tlv(tag: Byte, body: seq<Byte>): seq<Byte> {
    [tag, |Cut(body)| as Byte] + Cut(body)
  }

  datatype TsError = Truncated(what: string, have: nat, need: nat)

  datatype Descriptor = Descriptor(tag: Byte, data: seq<Byte>)

  /** One step of the iterator: what is left, and the item if any. */
  function NextDescriptor(rest: seq<Byte>): (seq<Byte>, Option<Result<Descriptor, TsError>>) {
    if rest == [] then ([], None)
    else if |rest| < 2 then ([], Some(Err(Truncated("descriptor header", |rest|, 2))))
    else
      var len := rest[1] as nat;
      if |rest| < 2 + len then ([], Some(Err(Truncated("descriptor body", |rest| - 2, len))))
      else (rest[2 + len..], Some(Ok(Descriptor(rest[0], rest[2..2 + len]))))
  }

  class DescriptorIter {
    var rest: seq<Byte>

    constructor (block: seq<Byte>)
      ensures rest == block
    {
      rest := block;
    }

    method Next() returns (item: Option<Result<Descriptor, TsError>>)
      modifies this
      ensures (rest, item) == NextDescriptor(old(rest))
    {
      if rest == [] {
        return None;
      }
      if |rest| < 2 {
        var have := |rest|;
        rest := [];
        return Some(Err(Truncated("descriptor header", have, 2)));
      }
      var tag, len := rest[0], rest[1] as nat;
      if |rest| < 2 + len {
        var have := |rest| - 2;
        rest := [];
        return Some(Err(Truncated("descriptor body", have, len)));
      }
      var data := rest[2..2 + len];
      rest := rest[2 + len..];
      return Some(Ok(Descriptor(tag, data)));
    }
  }

  function ParseAll(block: seq<Byte>): Result<seq<Descriptor>, TsError>
    decreases |block|
  {
    var (rest, item) := NextDescriptor(block);
    match item
    case None => Ok([])
    case Some(Err(e)) => Err(e)
    case Some(Ok(d)) =>
      After([d], ParseAll(rest))
  }

  /** Descriptors already read, then the outcome of the rest. */
  function After(ds: seq<Descriptor>, r: Result<seq<Descriptor>, TsError>): Result<seq<Descriptor>, TsError> {
    match r
    case Err(e) => Err(e)
    case Ok(more) => Ok(ds + more)
  }

  lemma AfterLaws(ds: seq<Descriptor>, d: Descriptor, r: Result<seq<Descriptor>, TsError>)
    ensures After([], r) == r
    ensures After(ds, Ok([])) == Ok(ds)
    ensures After(ds, After([d], r)) == After(ds + [d], r)
  {
    if r.Ok? {
      assert [] + r.value == r.value;
      assert ds + ([d] + r.value) == (ds + [d]) + r.value;
    }
    assert ds + [] == ds;
  }

  /** Collect every descriptor, or the first error. */
  method ParseDescriptors(block: seq<Byte>) returns (r: Result<seq<Descriptor>, TsError>)
    ensures r == ParseAll(block)
  {
    var iter := new DescriptorIter(block);
    var ds: seq<Descriptor> := [];
    AfterLaws([], Descriptor(0, []), ParseAll(block));
    while true
      invariant ParseAll(block) == After(ds, ParseAll(iter.rest))
      decreases |iter.rest|
    {
      var item := iter.Next();
      match item {
        case None =>
          AfterLaws(ds, Descriptor(0, []), Ok([]));
          return Ok(ds);
        case Some(Err(e)) =>
          return Err(e);
        case Some(Ok(d)) =>
          AfterLaws(ds, d, ParseAll(iter.rest));
          ds := ds + [d];
      }
    }
  }

  function Print(ds: seq<Descriptor>): seq<Byte> {
    if ds == [] then [] else Tlv(ds[0].tag, ds[0].data) + Print(ds[1..])
  }

  ghost predicate BodiesFit(ds: seq<Descriptor>) {
    forall d | d in ds :: |d.data| <= 255
  }

  lemma NextOfTlv(d: Descriptor, more: seq<Byte>)
    requires |d.data| <= 255
    ensures NextDescriptor(Tlv(d.tag, d.data) + more) == (more, Some(Ok(d)))
  {
    var s := Tlv(d.tag, d.data) + more;
    assert Cut(d.data) == d.data;
    assert s[2..2 + |d.data|] == d.data;
    assert s[2 + |d.data|..] == more;
  }

  lemma TlvOfNext(block: seq<Byte>)
    requires NextDescriptor(block).1.Some? && NextDescriptor(block).1.value.Ok?
    ensures var (rest, item) := NextDescriptor(block);
            var d := item.value.value;
            |d.data| <= 255 && block == Tlv(d.tag, d.data) + rest
  {
    var len := block[1] as nat;
    assert Cut(block[2..2 + len]) == block[2..2 + len];
    assert block == block[..2] + block[2..2 + len] + block[2 + len..];
  }

  lemma {:induction false} ParsePrinted(ds: seq<Descriptor>)
    requires BodiesFit(ds)
    ensures ParseAll(Print(ds)) == Ok(ds)
  {
    if ds != [] {
      NextOfTlv(ds[0], Print(ds[1..]));
      assert BodiesFit(ds[1..]);
      ParsePrinted(ds[1..]);
      assert [ds[0]] + ds[1..] == ds;
    }
  }

  lemma {:induction false} PrintParsed(block: seq<Byte>)
    requires ParseAll(block).Ok?
    ensures BodiesFit(ParseAll(block).value) && Print(ParseAll(block).value) == block
    decreases |block|
  {
    if block != [] {
      TlvOfNext(block);
      var (rest, item) := NextDescriptor(block);
      PrintParsed(rest);
      assert ParseAll(block).value[1..] == ParseAll(rest).value;
    }
  }

  /** A loop parses to exactly the list it was printed from, and to no other. */
  lemma LoopRoundTrip(block: seq<Byte>, ds: seq<Descriptor>)
    ensures ParseAll(block) == Ok(ds) <==> BodiesFit(ds) && block == Print(ds)
  {
    if ParseAll(block) == Ok(ds) {
      PrintParsed(block);
    }
    if BodiesFit(ds) && block == Print(ds) {
      ParsePrinted(ds);
    }
  }

  // ---- Length-prefixed runs ----

  /** A run of bytes behind its 8-bit length. */
  function Run(s: seq<Byte>): seq<Byte>
    requires |s| <= 255
  {
    [|s| as Byte] + s
  }

  /** The run starting at `pos` and the position after it. */
  function ReadRun(data: seq<Byte>, pos: nat): Option<(seq<Byte>, nat)> {
    if pos >= |data| then None
    else
      var end := pos + 1 + data[pos] as nat;
      if end > |data| then None else Some((data[pos + 1..end], end))
  }

  /** Reading a run undoes printing it, and succeeds on nothing else. */
  lemma RunRoundTrip(data: seq<Byte>, pos: nat, s: seq<Byte>, end: nat)
    ensures ReadRun(data, pos) == Some((s, end)) <==>
            |s| <= 255 && end == pos + 1 + |s| && end <= |data| && data[pos..end] == Run(s)
  {
    if ReadRun(data, pos) == Some((s, end)) {
      assert data[pos..end] == [data[pos]] + data[pos + 1..end];
    }
    if |s| <= 255 && end == pos + 1 + |s| && end <= |data| && data[pos..end] == Run(s) {
      assert data[pos..end][0] == data[pos];
      assert data[pos + 1..end] == data[pos..end][1..];
    }
  }

  // ---- service_descriptor and short_event_descriptor ----

  datatype Service = Service(serviceType: Byte, provider: seq<Byte>, name: seq<Byte>)
  {
    ghost predicate Fits() { |provider| <= 255 && |name| <= 255 }

    ghost function Body(): seq<Byte>
      requires Fits()
    {
      [serviceType] + Run(provider) + Run(name)
    }
  }

  function ServiceBytes(serviceType: Byte, provider: seq<Byte>, name: seq<Byte>): seq<Byte> {
    Tlv(0x48, [serviceType] + Run(Cut(provider)) + Run(Cut(name)))
  }

  function DecodeService(data: seq<Byte>): Option<Service> {
    if |data| < 2 then None
    else
      match ReadRun(data, 1)
      case None => None
      case Some((provider, next)) =>
        match ReadRun(data, next)
        case None => None
        case Some((name, _)) => Some(Service(data[0], provider, name))
  }

  /** The decoder accepts exactly the printed bodies, whatever trails them. */
  lemma ServiceDecodes(data: seq<Byte>, s: Service)
    ensures DecodeService(data) == Some(s) <==> s.Fits() && s.Body() <= data
  {
    var p, n := 2 + |s.provider|, 3 + |s.provider| + |s.name|;
    RunRoundTrip(data, 1, s.provider, p);
    RunRoundTrip(data, p, s.name, n);
    if s.Fits() && s.Body() <= data {
      assert data[..n] == s.Body();
      assert data[1..p] == s.Body()[1..p] == Run(s.provider);
      assert data[p..n] == s.Body()[p..n] == Run(s.name);
      assert data[0] == s.Body()[0];
    }
    if DecodeService(data) == Some(s) {
      assert data[..n] == [data[0]] + data[1..p] + data[p..n];
    }
  }

  datatype ShortEvent = ShortEvent(language: seq<Byte>, name: seq<Byte>, text: seq<Byte>)
  {
    ghost predicate Fits() { |language| == 3 && |name| <= 255 && |text| <= 255 }

    ghost function Body(): seq<Byte>
      requires Fits()
    {
      language + Run(name) + Run(text)
    }
  }

  function ShortEventBytes(language: seq<Byte>, name: seq<Byte>, text: seq<Byte>): seq<Byte> {
    Tlv(0x4D, language + Run(Cut(name)) + Run(Cut(text)))
  }

  function DecodeShortEvent(data: seq<Byte>): Option<ShortEvent> {
    if |data| < 4 then None
    else
      match ReadRun(data, 3)
      case None => None
      case Some((name, next)) =>
        match ReadRun(data, next)
        case None => None
        case Some((text, _)) => Some(ShortEvent(data[..3], name, text))
  }

  lemma ShortEventDecodes(data: seq<Byte>, e: ShortEvent)
    ensures DecodeShortEvent(data) == Some(e) <==> e.Fits() && e.Body() <= data
  {
    hide *;
    if e.Fits() && e.Body() <= data {
      PrintedShortEvent(data, e);
    }
    if DecodeShortEvent(data) == Some(e) {
      DecodedShortEvent(data, e);
    }
  }

  lemma PrintedShortEvent(data: seq<Byte>, e: ShortEvent)
    requires e.Fits() && e.Body() <= data
    ensures DecodeShortEvent(data) == Some(e)
  {
    var n, t := 4 + |e.name|, 5 + |e.name| + |e.text|;
    RunRoundTrip(data, 3, e.name, n);
    RunRoundTrip(data, n, e.text, t);
    assert data[..t] == e.Body();
    assert data[..3] == e.Body()[..3] == e.language;
    assert data[3..n] == e.Body()[3..n] == Run(e.name);
    assert data[n..t] == e.Body()[n..t] == Run(e.text);
  }

  lemma DecodedShortEvent(data: seq<Byte>, e: ShortEvent)
    requires DecodeShortEvent(data) == Some(e)
    ensures e.Fits() && e.Body() <= data
  {
    var n, t := 4 + |e.name|, 5 + |e.name| + |e.text|;
    RunRoundTrip(data, 3, e.name, n);
    RunRoundTrip(data, n, e.text, t);
    assert data[..t] == data[..3] + data[3..n] + data[n..t];
  }

  // ---- extended_event_descriptor ----

  datatype Item = Item(description: seq<Byte>, item: seq<Byte>)

  ghost predicate ItemsFit(items: seq<Item>) {
    forall i | i in items :: |i.description| <= 255 && |i.item| <= 255
  }

  /** The item loop as the builder writes it: over-long runs cut to their 8-bit prefix. */
  function ItemLoop(items: seq<Item>): seq<Byte> {
    if items == [] then []
    else Run(Cut(items[0].description)) + Run(Cut(items[0].item)) + ItemLoop(items[1..])
  }

  function ItemLoopSize(items: seq<Item>): nat {
    if items == [] then 0
    else 2 + |items[0].description| + |items[0].item| + ItemLoopSize(items[1..])
  }

  datatype ExtendedEvent = ExtendedEvent(
    number: nat, lastNumber: nat, language: seq<Byte>, items: seq<Item>, text: seq<Byte>)
  {
    /** Every field fits its bits on the wire. */
    ghost predicate Fits() {
      && number < 16 && lastNumber < 16 && |language| == 3
      && ItemsFit(items) && |ItemLoop(items)| <= 255 && |text| <= 255
    }

    ghost function Body(): seq<Byte>
      requires Fits()
    {
      [(number * 16 + lastNumber) as Byte] + language + Run(ItemLoop(items)) + Run(text)
    }
  }

  function ExtendedEventBytes(e: ExtendedEvent): seq<Byte>
    requires e.number < 256 && e.lastNumber < 256
  {
    Tlv(0x4E, BuiltBody(e))
  }

  method BuildExtendedEvent(e: ExtendedEvent) returns (out: seq<Byte>)
    requires e.number < 256 && e.lastNumber < 256 && |e.language| == 3
    ensures out == ExtendedEventBytes(e)
  {
    var itemLoop: seq<Byte> := [];
    for k := 0 to |e.items|
      invariant itemLoop + ItemLoop(e.items[k..]) == ItemLoop(e.items)
    {
      var i := e.items[k];
      var dl := Min(|i.description|, 255);
      var entry := [dl as Byte] + i.description[..dl];
      var il := Min(|i.item|, 255);
      entry := entry + ([il as Byte] + i.item[..il]);
      assert ItemLoop(e.items[k..]) == entry + ItemLoop(e.items[k + 1..]) by {
        assert e.items[k..][1..] == e.items[k + 1..];
      }
      assert (itemLoop + entry) + ItemLoop(e.items[k + 1..]) == itemLoop + (entry + ItemLoop(e.items[k + 1..]));
      itemLoop := itemLoop + entry;
    }
    assert itemLoop + [] == itemLoop;
    var ill := Min(|itemLoop|, 255);
    itemLoop := itemLoop[..ill];
    var tl := Min(|e.text|, 255);
    var body := [(e.number * 16 % 256 + e.lastNumber % 16) as Byte];
    body := body + e.language;
    body := body + ([ill as Byte] + itemLoop);
    body := body + ([tl as Byte] + e.text[..tl]);
    out := Tlv(0x4E, body);
  }

  /** The description and item runs at `pos`, and the position after them. */
  function NextItem(block: seq<Byte>, pos: nat): Option<(Item, nat)> {
    match ReadRun(block, pos)
    case None => None
    case Some((description, next)) =>
      match ReadRun(block, next)
      case None => None
      case Some((item, end)) => Some((Item(description, item), end))
  }

  lemma NextItemAdvances(block: seq<Byte>, pos: nat)
    ensures NextItem(block, pos).Some? ==> pos + 2 <= NextItem(block, pos).value.1 <= |block|
  {
  }

  function DecodeItems(block: seq<Byte>): Option<seq<Item>>
    decreases |block|
  {
    if block == [] then Some([])
    else
      match NextItem(block, 0)
      case None => None
      case Some((i, end)) => Listed([i], DecodeItems(block[end..]))
  }

  function Listed(items: seq<Item>, more: Option<seq<Item>>): Option<seq<Item>> {
    if more.None? then None else Some(items + more.value)
  }

  lemma ListedLaws(items: seq<Item>, i: Item, more: Option<seq<Item>>)
    ensures Listed([], more) == more
    ensures Listed(items, Some([])) == Some(items)
    ensures Listed(items, Listed([i], more)) == Listed(items + [i], more)
  {
    if more.Some? {
      assert [] + more.value == more.value;
      assert items + ([i] + more.value) == (items + [i]) + more.value;
    }
    assert items + [] == items;
  }

  lemma ReadRunShift(block: seq<Byte>, pos: nat, k: nat)
    requires pos <= |block|
    ensures ReadRun(block[pos..], k) ==
            match ReadRun(block, pos + k)
            case None => None
            case Some((s, end)) => Some((s, end - pos))
  {
    if pos + k < |block| {
      var end := pos + k + 1 + block[pos + k] as nat;
      if end <= |block| {
        assert block[pos..][k + 1..end - pos] == block[pos + k + 1..end];
      }
    }
  }

  function DecodeExtendedEvent(data: seq<Byte>): Option<ExtendedEvent> {
    if |data| < 5 then None
    else
      var itemsEnd := 5 + data[4] as nat;
      if itemsEnd >= |data| then None
      else
        match DecodeItems(data[5..itemsEnd])
        case None => None
        case Some(items) =>
          match ReadRun(data, itemsEnd)
          case None => None
          case Some((text, _)) =>
            Some(ExtendedEvent(data[0] as nat / 16, data[0] as nat % 16, data[1..4], items, text))
  }

  lemma DecodeFrom(block: seq<Byte>, pos: nat)
    requires pos < |block|
    ensures DecodeItems(block[pos..]) ==
            match NextItem(block, pos)
            case None => None
            case Some((i, end)) => Listed([i], DecodeItems(block[end..]))
  {
    hide ReadRun, Listed, NextItem;
    NextItemShift(block, pos);
    NextItemAdvances(block, pos);
    if NextItem(block, pos).Some? {
      var end := NextItem(block, pos).value.1;
      assert block[pos..][end - pos..] == block[end..];
    }
  }

  lemma NextItemShift(block: seq<Byte>, pos: nat)
    requires pos <= |block|
    ensures NextItem(block, pos).None? ==> NextItem(block[pos..], 0).None?
    ensures NextItem(block, pos).Some? ==>
              pos <= NextItem(block, pos).value.1
              && NextItem(block[pos..], 0) == Some((NextItem(block, pos).value.0, NextItem(block, pos).value.1 - pos))
  {
    ReadRunShift(block, pos, 0);
    if ReadRun(block, pos).Some? {
      ReadRunShift(block, pos, ReadRun(block, pos).value.1 - pos);
    }
  }

  /** The source's loop over the item block. */
  method ReadItems(block: seq<Byte>) returns (r: Option<seq<Item>>)
    ensures r == DecodeItems(block)
  {
    hide DecodeItems, Listed;
    var items: seq<Item> := [];
    var pos := 0;
    assert block[0..] == block;
    ListedLaws([], Item([], []), DecodeItems(block));
    while pos < |block|
      invariant pos <= |block|
      invariant DecodeItems(block) == Listed(items, DecodeItems(block[pos..]))
    {
      DecodeFrom(block, pos);
      ListedNone(items);
      var descStart := pos + 1;
      var descEnd := descStart + block[pos] as nat;
      if descEnd >= |block| {
        return None;
      }
      var itemStart := descEnd + 1;
      var itemEnd := itemStart + block[descEnd] as nat;
      if itemEnd > |block| {
        return None;
      }
      var entry := Item(block[descStart..descEnd], block[itemStart..itemEnd]);
      ListedLaws(items, entry, DecodeItems(block[itemEnd..]));
      items := items + [entry];
      pos := itemEnd;
    }
    assert block[pos..] == [];
    NoItems();
    ListedLaws(items, Item([], []), None);
    r := Some(items);
  }

  lemma NoItems()
    ensures DecodeItems([]) == Some([])
  {
  }

  lemma ListedNone(items: seq<Item>)
    ensures Listed(items, None) == None
  {
  }

  lemma {:induction false} ItemLoopSized(items: seq<Item>)
    requires ItemsFit(items)
    ensures |ItemLoop(items)| == ItemLoopSize(items)
  {
    if items != [] {
      assert items[0] in items;
      assert ItemsFit(items[1..]);
      ItemLoopSized(items[1..]);
    }
  }

  lemma {:induction false} ItemsPrinted(items: seq<Item>)
    requires ItemsFit(items)
    ensures DecodeItems(ItemLoop(items)) == Some(items)
  {
    if items != [] {
      assert items[0] in items;
      assert ItemsFit(items[1..]);
      ItemsPrinted(items[1..]);
      ItemCons(items[0], ItemLoop(items[1..]));
      assert [items[0]] + items[1..] == items;
    }
  }

  lemma ItemCons(i: Item, more: seq<Byte>)
    requires |i.description| <= 255 && |i.item| <= 255
    ensures Cut(i.description) == i.description && Cut(i.item) == i.item
    ensures var block := Run(i.description) + Run(i.item) + more;
            var next := 1 + |i.description|;
            var end := next + 1 + |i.item|;
            && ReadRun(block, 0) == Some((i.description, next))
            && ReadRun(block, next) == Some((i.item, end))
            && block[end..] == more
  {
    var block := Run(i.description) + Run(i.item) + more;
    var next := 1 + |i.description|;
    var end := next + 1 + |i.item|;
    assert block[0..next] == Run(i.description);
    assert block[next..end] == Run(i.item);
    RunRoundTrip(block, 0, i.description, next);
    RunRoundTrip(block, next, i.item, end);
  }

  lemma {:induction false} ItemsParsed(block: seq<Byte>)
    requires DecodeItems(block).Some?
    ensures var items := DecodeItems(block).value;
            ItemsFit(items) && ItemLoop(items) == block
    decreases |block|
  {
    hide ReadRun, Run, Cut;
    if block != [] {
      ItemPrinted(block);
      var (i, end) := NextItem(block, 0).value;
      ItemsParsed(block[end..]);
      var items := DecodeItems(block).value;
      assert items == [i] + DecodeItems(block[end..]).value;
      assert items[1..] == DecodeItems(block[end..]).value;
    }
  }

  lemma ItemPrinted(block: seq<Byte>)
    requires NextItem(block, 0).Some?
    ensures var (i, end) := NextItem(block, 0).value;
            && |i.description| <= 255 && |i.item| <= 255 && 0 < end <= |block|
            && block == Run(Cut(i.description)) + Run(Cut(i.item)) + block[end..]
  {
    var (i, end) := NextItem(block, 0).value;
    var next := ReadRun(block, 0).value.1;
    RunRoundTrip(block, 0, i.description, next);
    RunRoundTrip(block, next, i.item, end);
    assert block == block[0..next] + block[next..end] + block[end..];
    assert Cut(i.description) == i.description && Cut(i.item) == i.item;
  }

  /** Where the runs of a printed body lie. */
  lemma BodyLayout(e: ExtendedEvent, data: seq<Byte>)
    requires e.Fits() && e.Body() <= data
    ensures var m := 5 + |ItemLoop(e.items)|;
            var n := m + 1 + |e.text|;
            && n <= |data|
            && data[0] == (e.number * 16 + e.lastNumber) as Byte
            && data[1..4] == e.language
            && data[4..m] == Run(ItemLoop(e.items))
            && data[m..n] == Run(e.text)
  {
    var body := e.Body();
    var m := 5 + |ItemLoop(e.items)|;
    var n := m + 1 + |e.text|;
    assert data[..n] == body;
    assert data[0] == body[0];
    assert data[1..4] == body[1..4] == e.language;
    assert data[4..m] == body[4..m] == Run(ItemLoop(e.items));
    assert data[m..n] == body[m..n] == Run(e.text);
  }

  lemma FourParts(data: seq<Byte>, m: nat, n: nat)
    requires 4 <= m <= n <= |data|
    ensures data[..n] == [data[0]] + data[1..4] + data[4..m] + data[m..n]
  {
  }

  lemma BodyParts(e: ExtendedEvent)
    requires e.Fits()
    ensures e.number * 16 + e.lastNumber < 256
    ensures e.Body() == [(e.number * 16 + e.lastNumber) as Byte] + e.language + Run(ItemLoop(e.items)) + Run(e.text)
  {
  }

  lemma BodyFromLayout(e: ExtendedEvent, data: seq<Byte>)
    requires e.Fits()
    requires var m := 5 + |ItemLoop(e.items)|;
             var n := m + 1 + |e.text|;
             && n <= |data|
             && data[0] == (e.number * 16 + e.lastNumber) as Byte
             && data[1..4] == e.language
             && data[4..m] == Run(ItemLoop(e.items))
             && data[m..n] == Run(e.text)
    ensures e.Body() <= data
  {
    hide ItemLoop, Run;
    var m := 5 + |ItemLoop(e.items)|;
    var n := m + 1 + |e.text|;
    FourParts(data, m, n);
    BodyParts(e);
    assert data[..n] == e.Body();
  }

  lemma Nibbles(hi: nat, lo: nat, b: nat)
    requires b < 256
    ensures b / 16 == hi && b % 16 == lo <==> hi < 16 && lo < 16 && b == hi * 16 + lo
  {
  }

  lemma DecodedIsPrinted(data: seq<Byte>, e: ExtendedEvent)
    requires DecodeExtendedEvent(data) == Some(e)
    ensures e.Fits() && e.Body() <= data
  {
    hide DecodeItems, ItemLoop;
    var m := 5 + data[4] as nat;
    ItemsParsed(data[5..m]);
    RunRoundTrip(data, m, e.text, m + 1 + |e.text|);
    assert data[4..m] == [data[4]] + data[5..m];
    Nibbles(e.number, e.lastNumber, data[0] as nat);
    BodyFromLayout(e, data);
  }

  lemma PrintedIsDecoded(data: seq<Byte>, e: ExtendedEvent)
    requires e.Fits() && e.Body() <= data
    ensures DecodeExtendedEvent(data) == Some(e)
  {
    hide DecodeItems, ItemLoop, ItemsFit;
    BodyLayout(e, data);
    var m := 5 + |ItemLoop(e.items)|;
    assert data[4] == data[4..m][0];
    assert data[5..m] == data[4..m][1..];
    ItemsPrinted(e.items);
    RunRoundTrip(data, m, e.text, m + 1 + |e.text|);
    Nibbles(e.number, e.lastNumber, data[0] as nat);
  }

  /** The decoder accepts exactly the printed bodies, whatever trails them. */
  lemma ExtendedEventDecodes(data: seq<Byte>, e: ExtendedEvent)
    ensures DecodeExtendedEvent(data) == Some(e) <==> e.Fits() && e.Body() <= data
  {
    if DecodeExtendedEvent(data) == Some(e) {
      DecodedIsPrinted(data, e);
    }
    if e.Fits() && e.Body() <= data {
      PrintedIsDecoded(data, e);
    }
  }

  /** The body the builder hands to the envelope. */
  function BuiltBody(e: ExtendedEvent): seq<Byte>
    requires e.number < 256 && e.lastNumber < 256
  {
    [(e.number * 16 % 256 + e.lastNumber % 16) as Byte] + e.language + Run(Cut(ItemLoop(e.items))) + Run(Cut(e.text))
  }

  predicate SmallEnough(e: ExtendedEvent) {
    e.number < 16 && e.lastNumber < 16 && 6 + ItemLoopSize(e.items) + |e.text| <= 255
  }

  lemma BuiltIsBody(e: ExtendedEvent)
    requires |e.language| == 3 && SmallEnough(e)
    ensures e.Fits() && BuiltBody(e) == e.Body() && |e.Body()| <= 255
  {
    SmallItemsFit(e.items, 249);
    ItemLoopSized(e.items);
    assert Cut(ItemLoop(e.items)) == ItemLoop(e.items) && Cut(e.text) == e.text;
  }

  lemma FittingBodyIsSmall(e: ExtendedEvent)
    requires e.Fits() && |e.Body()| <= 255
    ensures SmallEnough(e)
  {
    ItemLoopSized(e.items);
  }

  lemma Enveloped(tag: Byte, body: seq<Byte>)
    ensures NextDescriptor(Tlv(tag, body)) == ([], Some(Ok(Descriptor(tag, Cut(body)))))
  {
    assert Cut(Cut(body)) == Cut(body);
    NextOfTlv(Descriptor(tag, Cut(body)), []);
    assert Tlv(tag, body) == Tlv(tag, Cut(body)) + [];
  }

  /**
    The built descriptor reads back as what was built exactly when both
    numbers are nibbles and everything fits the 255-byte body; past that
    the builder truncates and the event is lost or changed.
   */
  lemma ExtendedEventRoundTrip(e: ExtendedEvent)
    requires e.number < 256 && e.lastNumber < 256 && |e.language| == 3
    ensures var built := NextDescriptor(ExtendedEventBytes(e));
            && built.0 == []
            && built.1.Some? && built.1.value.Ok? && built.1.value.value.tag == 0x4E
            && (DecodeExtendedEvent(built.1.value.value.data) == Some(e) <==>
                e.number < 16 && e.lastNumber < 16 && 6 + ItemLoopSize(e.items) + |e.text| <= 255)
  {
    hide DecodeExtendedEvent, Tlv, NextDescriptor, ItemLoopSize;
    Enveloped(0x4E, BuiltBody(e));
    var data := Cut(BuiltBody(e));
    ExtendedEventDecodes(data, e);
    if SmallEnough(e) {
      BuiltIsBody(e);
    }
    if e.Fits() && e.Body() <= data {
      FittingBodyIsSmall(e);
    }
  }

  lemma {:induction false} SmallItemsFit(items: seq<Item>, bound: nat)
    requires ItemLoopSize(items) <= bound <= 255
    ensures ItemsFit(items)
  {
    if items != [] {
      SmallItemsFit(items[1..], bound);
      assert items == [items[0]] + items[1..];
    }
  }

  /** The same for the two-run descriptors. */
  lemma ServiceRoundTrip(s: Service)
    ensures var built := NextDescriptor(ServiceBytes(s.serviceType, s.provider, s.name));
            && built.0 == []
            && built.1.Some? && built.1.value.Ok? && built.1.value.value.tag == 0x48
            && (DecodeService(built.1.value.value.data) == Some(s) <==> 3 + |s.provider| + |s.name| <= 255)
  {
    hide DecodeService, Tlv, NextDescriptor;
    var body := [s.serviceType] + Run(Cut(s.provider)) + Run(Cut(s.name));
    Enveloped(0x48, body);
    ServiceDecodes(Cut(body), s);
    if 3 + |s.provider| + |s.name| <= 255 {
      assert Cut(s.provider) == s.provider && Cut(s.name) == s.name;
      assert body == s.Body();
    }
  }

  lemma ShortEventRoundTrip(e: ShortEvent)
    requires |e.language| == 3
    ensures var built := NextDescriptor(ShortEventBytes(e.language, e.name, e.text));
            && built.0 == []
            && built.1.Some? && built.1.value.Ok? && built.1.value.value.tag == 0x4D
            && (DecodeShortEvent(built.1.value.value.data) == Some(e) <==> 5 + |e.name| + |e.text| <= 255)
  {
    hide DecodeShortEvent, Tlv, NextDescriptor;
    var body := e.language + Run(Cut(e.name)) + Run(Cut(e.text));
    Enveloped(0x4D, body);
    ShortEventDecodes(Cut(body), e);
    if 5 + |e.name| + |e.text| <= 255 {
      assert Cut(e.name) == e.name && Cut(e.text) == e.text;
      assert body == e.Body();
    }
  }
}

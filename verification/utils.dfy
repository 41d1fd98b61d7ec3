/** The pure parts of utils.ts: the data-URL payload split done after a file
    read, and the history store kept under one local-storage key. */
module Utils {
  import opened Wrappers
  import opened Strings
  import opened Types

  // ---------------------------------------------------------------------------
  // Data-URL payload
  // ---------------------------------------------------------------------------

  /** `result.split(',')[1]` on the data URL a file read produced: the text
      between the first and the second comma (or the end), and nothing
      (`undefined`) when the URL holds no comma. */
  function DataUrlPayload(dataUrl: string): (r: Option<string>)
    ensures r.None? <==> ',' !in dataUrl
    ensures r.Some? ==> ',' !in r.value
  {
    var parts := Split(dataUrl, ',');
    if |parts| >= 2 then
      assert dataUrl[|parts[0]|] == ',';
      Some(parts[1])
    else
      None
  }

  /** The payload is exactly the piece after the first comma, up to the next
      comma if there is one. */
  lemma PayloadBetweenCommas(head: string, payload: string, rest: string)
    requires ',' !in head && ',' !in payload
    requires rest == [] || rest[0] == ','
    ensures DataUrlPayload(head + "," + payload + rest) == Some(payload)
  {
    assert head + "," + payload + rest == head + [','] + (payload + rest);
    SplitAtFirstSeparator(head, ',', payload + rest);
    if rest == [] {
      assert payload + rest == payload;
      SplitWithoutSeparator(payload, ',');
    } else {
      assert payload + rest == payload + [','] + rest[1..];
      SplitAtFirstSeparator(payload, ',', rest[1..]);
    }
  }

  /** For a well-formed `data:<mime>;base64,<payload>` URL the raw payload comes back. */
  lemma PayloadOfBase64DataUrl(mime: string, payload: string)
    requires ',' !in mime && ',' !in payload
    ensures DataUrlPayload("data:" + mime + ";base64," + payload) == Some(payload)
  {
    var head := "data:" + mime + ";base64";
    assert ',' !in head by {
      assert forall k :: 0 <= k < |head| ==> head[k] != ',' by {
        forall k | 0 <= k < |head|
          ensures head[k] != ','
        {
          if 5 <= k < 5 + |mime| {
            assert head[k] == mime[k - 5];
          }
        }
      }
    }
    assert "data:" + mime + ";base64," + payload == head + "," + payload + [];
    PayloadBetweenCommas(head, payload, []);
  }

  // ---------------------------------------------------------------------------
  // History store
  // ---------------------------------------------------------------------------

  /** The `conversion_history` local-storage key: absent, or holding a list of
      entries (serialisation is taken to round-trip exactly). */
  type HistorySlot = Option<seq<ConversionItem>>

  /** How many entries a save keeps. */
  const HistoryLimit: nat := 10

  /** `getHistory`: the stored list, or the empty list when the key is absent. */
  function GetHistory(slot: HistorySlot): seq<ConversionItem> {
    match slot
    case Some(h) => h
    case None => []
  }

  /** `s.slice(0, n)`. */
  function Take<T>(s: seq<T>, n: nat): (r: seq<T>)
    ensures |r| == if |s| <= n then |s| else n
    ensures forall k :: 0 <= k < |r| ==> r[k] == s[k]
  {
    if |s| <= n then s else s[..n]
  }

  /** `saveToHistory`: the new entry goes first, the previous entries follow in
      their order, and only the first ten are written back. */
  function SaveToHistory(slot: HistorySlot, item: ConversionItem): (slot': HistorySlot)
    ensures slot'.Some?
    ensures var h, h' := GetHistory(slot), GetHistory(slot');
      && |h'| == (if |h| + 1 <= HistoryLimit then |h| + 1 else HistoryLimit)
      && h' == [item] + Take(h, HistoryLimit - 1)
  {
    var h' := Take([item] + GetHistory(slot), HistoryLimit);
    assert h'[1..] == Take(GetHistory(slot), HistoryLimit - 1);
    assert h' == [h'[0]] + h'[1..];
    Some(h')
  }

  /** `clearHistory`: the key is removed. */
  function ClearHistory(slot: HistorySlot): (slot': HistorySlot)
    ensures GetHistory(slot') == []
  {
    None
  }

  /** An absent key and an empty list both read as the empty history. */
  lemma GetHistoryEmpty(slot: HistorySlot)
    ensures GetHistory(slot) == [] <==> (slot.None? || slot.value == [])
  {
  }

  /** With ten entries stored, a save evicts exactly the oldest one. */
  lemma SaveEvictsOldest(slot: HistorySlot, item: ConversionItem)
    requires |GetHistory(slot)| == HistoryLimit
    ensures var h, h' := GetHistory(slot), GetHistory(SaveToHistory(slot, item));
      && h' == [item] + h[..HistoryLimit - 1]
      && multiset(h') == multiset(h) - multiset{h[HistoryLimit - 1]} + multiset{item}
  {
    var h, h' := GetHistory(slot), GetHistory(SaveToHistory(slot, item));
    assert h' == [h'[0]] + h'[1..];
    assert h == h[..HistoryLimit - 1] + [h[HistoryLimit - 1]];
    assert multiset(h) == multiset(h[..HistoryLimit - 1]) + multiset{h[HistoryLimit - 1]};
  }

  /** Saving never deduplicates: below the cap, the saved entry occurs once
      more than before, even if an equal entry is already stored. */
  lemma SaveKeepsDuplicates(slot: HistorySlot, item: ConversionItem)
    requires |GetHistory(slot)| < HistoryLimit
    ensures multiset(GetHistory(SaveToHistory(slot, item)))[item] == multiset(GetHistory(slot))[item] + 1
  {
    var h, h' := GetHistory(slot), GetHistory(SaveToHistory(slot, item));
    assert h' == [item] + h;
  }

  /** The stored list after saving each of `items` in turn. */
  function SaveAll(slot: HistorySlot, items: seq<ConversionItem>): HistorySlot
    decreases |items|
  {
    if items == [] then slot else SaveAll(SaveToHistory(slot, items[0]), items[1..])
  }

  function Reverse<T>(s: seq<T>): (r: seq<T>)
    ensures |r| == |s|
    ensures forall k :: 0 <= k < |s| ==> r[k] == s[|s| - 1 - k]
  {
    if s == [] then [] else Reverse(s[1..]) + [s[0]]
  }

  /** Cutting the tail before or after prepending gives the same first `n` entries. */
  lemma TakeAppendTake<T>(a: seq<T>, b: seq<T>, n: nat)
    ensures Take(a + Take(b, n), n) == Take(a + b, n)
  {
  }

  /** After a run of saves the store holds the ten newest entries, newest
      first, followed by whatever older entries still fit. */
  lemma {:induction false} SaveAllNewestFirst(slot: HistorySlot, items: seq<ConversionItem>)
    requires |GetHistory(slot)| <= HistoryLimit
    ensures GetHistory(SaveAll(slot, items)) == Take(Reverse(items) + GetHistory(slot), HistoryLimit)
    decreases |items|
  {
    if items == [] {
      assert Reverse(items) + GetHistory(slot) == GetHistory(slot);
    } else {
      var x, ys := items[0], items[1..];
      var h := GetHistory(slot);
      var slot1 := SaveToHistory(slot, x);
      SaveAllNewestFirst(slot1, ys);
      assert SaveAll(slot, items) == SaveAll(slot1, ys);
      assert GetHistory(slot1) == Take([x] + h, HistoryLimit);
      TakeAppendTake(Reverse(ys), [x] + h, HistoryLimit);
      assert Reverse(items) == Reverse(ys) + [x];
      AppendAssoc(Reverse(ys), [x], h);
    }
  }

  lemma AppendAssoc<T>(a: seq<T>, b: seq<T>, c: seq<T>)
    ensures a + (b + c) == (a + b) + c
  {
  }

  /** Saving eleven distinct entries into an empty store keeps ten, newest
      first, and the first one saved is gone. */
  lemma ElevenSavesEvictFirst(items: seq<ConversionItem>)
    requires |items| == HistoryLimit + 1
    requires forall i, j :: 0 <= i < j < |items| ==> items[i] != items[j]
    ensures var h := GetHistory(SaveAll(None, items));
      && |h| == HistoryLimit
      && (forall k :: 0 <= k < HistoryLimit ==> h[k] == items[HistoryLimit - k])
      && items[0] !in h
  {
    SaveAllNewestFirst(None, items);
    var h := GetHistory(SaveAll(None, items));
    var r := Reverse(items);
    assert r + [] == r;
    assert h == Take(r, HistoryLimit) == r[..HistoryLimit];
    forall k | 0 <= k < HistoryLimit
      ensures h[k] == items[HistoryLimit - k] && h[k] != items[0]
    {
      assert h[k] == r[k];
    }
  }

  /** A write to the store: a save or a clear. */
  datatype StoreOp = Save(item: ConversionItem) | Clear

  function ApplyStoreOps(slot: HistorySlot, ops: seq<StoreOp>): HistorySlot
    decreases |ops|
  {
    if ops == [] then slot
    else
      var next := match ops[0]
        case Save(item) => SaveToHistory(slot, item)
        case Clear => ClearHistory(slot);
      ApplyStoreOps(next, ops[1..])
  }

  /** Once written, the store never holds more than ten entries, whatever
      sequence of saves and clears follows. */
  lemma {:induction false} StoreStaysBounded(slot: HistorySlot, ops: seq<StoreOp>)
    requires |GetHistory(slot)| <= HistoryLimit || |ops| > 0
    ensures |GetHistory(ApplyStoreOps(slot, ops))| <= HistoryLimit
    decreases |ops|
  {
    if ops != [] {
      var next := match ops[0]
        case Save(item) => SaveToHistory(slot, item)
        case Clear => ClearHistory(slot);
      StoreStaysBounded(next, ops[1..]);
    }
  }
}

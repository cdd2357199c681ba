/** From a received event to the update it asks for. */
module Events {
  import opened Options
  import opened PublicKeys
  import L = Lists

  datatype RawEvent = RawEvent(kind: nat, author: string, createdAt: nat, id: nat, tags: seq<seq<string>>)

  const I64_MAX: nat := 0x7FFF_FFFF_FFFF_FFFF
  const MUTE_KIND: nat := 10000

  /** Lists only, and nothing from the far future. */
  predicate Considered(e: RawEvent, now: nat) {
    (e.kind == 3 || e.kind == MUTE_KIND) && e.createdAt <= now + 600
  }

  function KindOf(kind: nat): L.Kind {
    if kind == 3 then L.Follow else L.Mute
  }

  predicate NamesKey(tag: seq<string>) {
    |tag| >= 2 && tag[0] == "p" && ValidPubkey(tag[1])
  }

  /** The keys named by `p` tags, in lower case. */
  function TaggedKeys(tags: seq<seq<string>>): seq<string> {
    if tags == [] then []
    else
      var tag, keys := tags[|tags| - 1], TaggedKeys(tags[..|tags| - 1]);
      if NamesKey(tag) then keys + [Lowered(tag[1])] else keys
  }

  function ToUpdate(e: RawEvent): L.Update {
    L.Update(KindOf(e.kind), e.author, TaggedKeys(e.tags),
             L.Version(Some(if e.createdAt <= I64_MAX then e.createdAt else I64_MAX), Some(e.id)))
  }

  /** `process_event`: the list an event carries, if it is one of the two kinds. */
  method ProcessEvent(e: RawEvent) returns (update: Option<L.Update>)
    ensures update == if e.kind == 3 || e.kind == MUTE_KIND then Some(ToUpdate(e)) else None
  {
    if e.kind != 3 && e.kind != MUTE_KIND {
      return None;
    }
    var follows := [];
    for i := 0 to |e.tags|
      invariant follows == TaggedKeys(e.tags[..i])
    {
      var values := e.tags[i];
      assert e.tags[..i + 1][..i] == e.tags[..i];
      if |values| >= 2 && values[0] == "p" && ValidPubkey(values[1]) {
        follows := follows + [Lowered(values[1])];
      }
    }
    assert e.tags[..|e.tags|] == e.tags;
    update := Some(L.Update(KindOf(e.kind), e.author, follows,
                            L.Version(Some(if e.createdAt <= I64_MAX then e.createdAt else I64_MAX), Some(e.id))));
  }

  // ---------- What an event says, by its raw fields ----------

  /** `x` is the lower-case form of the 64 hexadecimal digits in `digits`. */
  ghost predicate LowerHex(digits: string, x: string) {
    && |digits| == 64 && |x| == 64
    && forall i | 0 <= i < 64 ::
         && digits[i] in "0123456789abcdefABCDEF"
         && x[i] as int == digits[i] as int + if 'A' <= digits[i] <= 'F' then 32 else 0
  }

  /** The event has a tag `["p", key, ...]` for the key `x`. */
  ghost predicate ListsKey(e: RawEvent, x: string) {
    exists tag :: tag in e.tags && |tag| >= 2 && tag[0] == "p" && LowerHex(tag[1], x)
  }

  lemma LoweredHex(digits: string, x: string)
    ensures ValidPubkey(digits) && x == Lowered(digits) <==> LowerHex(digits, x)
  {
    ValidByDigits(digits);
    if LowerHex(digits, x) {
      forall i | 0 <= i < 64 ensures x[i] == Lower(digits[i]) {
        HexDigits(digits[i]);
      }
    }
  }

  /** The update names exactly the keys of the event's well-formed `p` tags. */
  lemma {:induction false} TaggedKey(e: RawEvent, n: nat, x: string)
    requires n <= |e.tags|
    ensures x in TaggedKeys(e.tags[..n]) <==>
            exists i :: 0 <= i < n && |e.tags[i]| >= 2 && e.tags[i][0] == "p" && LowerHex(e.tags[i][1], x)
  {
    hide LowerHex, ValidPubkey;
    if n > 0 {
      assert e.tags[..n][..n - 1] == e.tags[..n - 1];
      TaggedKey(e, n - 1, x);
      if |e.tags[n - 1]| >= 2 {
        LoweredHex(e.tags[n - 1][1], x);
      }
    }
  }

  lemma UpdateLists(e: RawEvent, x: string)
    ensures x in L.Targets(ToUpdate(e)) <==> ListsKey(e, x)
  {
    hide LowerHex, TaggedKeys;
    assert e.tags[..|e.tags|] == e.tags;
    TaggedKey(e, |e.tags|, x);
    if ListsKey(e, x) {
      var tag :| tag in e.tags && |tag| >= 2 && tag[0] == "p" && LowerHex(tag[1], x);
      var i :| 0 <= i < |e.tags| && e.tags[i] == tag;
    }
  }
}

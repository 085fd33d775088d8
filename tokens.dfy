/**
 * A player's tokens as a value: the two rows of `tokensOnTable` and
 * `tokensCounter`.
 *
 * Row `slots` holds the slots the player has marked, row `cards` the card
 * each slot showed when the token was placed; `Unused` (-1) marks a free
 * entry in both rows. The functions here state what `tokenAction` and the
 * staleness check of `setTest` do to these rows; the `Game` module runs the
 * same steps on the player's arrays.
 */
module Tokens {
  import opened Wrappers
  import opened Cards

  /** Number of entries in each token row; also the size of a claim. */
  const TokenCapacity := 3

  /** Marker of a free entry in both rows. */
  const Unused := -1

  datatype TokenState = TokenState(slots: seq<int>, cards: seq<int>, counter: int)

  /** Number of entries of a row in use. */
  function Used(s: seq<int>): nat
  {
    if s == [] then 0 else (if s[0] != Unused then 1 else 0) + Used(s[1..])
  }

  /** Used, written out for a row of three entries. */
  lemma Used3(s: seq<int>)
    requires |s| == 3
    ensures Used(s) == (if s[0] != Unused then 1 else 0) + (if s[1] != Unused then 1 else 0) + (if s[2] != Unused then 1 else 0)
  {
    var s1 := s[1..];
    var s2 := s1[1..];
    assert s2[1..] == [];
    assert Used(s2) == (if s[2] != Unused then 1 else 0) + Used(s2[1..]);
    assert Used(s1) == (if s[1] != Unused then 1 else 0) + Used(s2);
  }

  /**
   * The player's token invariant: the counter is the number of entries in
   * use, both rows agree on which entries are free, each used entry names a
   * real slot and a card, and no slot is marked twice.
   */
  predicate Inv(t: TokenState)
  {
    && |t.slots| == TokenCapacity && |t.cards| == TokenCapacity
    && (forall i :: 0 <= i < TokenCapacity ==> (t.slots[i] == Unused <==> t.cards[i] == Unused))
    && (forall i :: 0 <= i < TokenCapacity ==> Unused <= t.slots[i] < SlotCount && Unused <= t.cards[i])
    && (forall i, j :: 0 <= i < j < TokenCapacity && t.slots[i] != Unused ==> t.slots[i] != t.slots[j])
    && t.counter == Used(t.slots)
  }

  /** The counter kept by the invariant never leaves 0 .. 3. */
  lemma InvBounds(t: TokenState)
    requires Inv(t)
    ensures 0 <= t.counter <= TokenCapacity
    ensures t.counter == TokenCapacity <==> forall i :: 0 <= i < TokenCapacity ==> 0 <= t.slots[i] < SlotCount
  {
    Used3(t.slots);
  }

  /** No tokens: what removeAllTokens and point leave behind. */
  function NoTokens(): (t: TokenState)
    ensures Inv(t) && t.counter == 0
  {
    var t := TokenState([Unused, Unused, Unused], [Unused, Unused, Unused], 0);
    Used3(t.slots);
    t
  }

  /** The first entry of row `s` equal to `x`, or |s| when there is none. */
  function IndexOf(s: seq<int>, x: int): (k: nat)
    ensures k <= |s|
    ensures k < |s| ==> s[k] == x
    ensures forall i :: 0 <= i < k ==> s[i] != x
  {
    if s == [] then 0 else if s[0] == x then 0 else 1 + IndexOf(s[1..], x)
  }

  /** The last free entry of row `s` (the `empty` index tokenAction's scan ends with), or -1. */
  function LastUnused(s: seq<int>): (e: int)
    ensures -1 <= e < |s|
    ensures e >= 0 ==> s[e] == Unused
    ensures forall i :: e < i < |s| ==> s[i] != Unused
  {
    if s == [] then -1
    else if s[|s| - 1] == Unused then |s| - 1
    else LastUnused(s[..|s| - 1])
  }

  /** Under the invariant a player with fewer than 3 tokens has a free entry: `empty >= 0`. */
  lemma FreeEntryExists(t: TokenState)
    requires Inv(t) && t.counter != TokenCapacity
    ensures LastUnused(t.slots) >= 0
  {
    Used3(t.slots);
  }

  /**
   * tokenAction on a drained press of `slot`, where `card` is what the table
   * shows at `slot` at that moment: a token already on `slot` is removed;
   * otherwise a new token is written into the last free entry, unless three
   * tokens are already held or the slot has become empty, in which case the
   * press is dropped.
   */
  function Toggle(t: TokenState, slot: int, card: Option<Card>): (r: TokenState)
    requires Inv(t) && 0 <= slot < SlotCount
    ensures Inv(r)
  {
    var k := IndexOf(t.slots, slot);
    if k < |t.slots| then
      RemoveKeepsInv(t, k);
      TokenState(t.slots[k := Unused], t.cards[k := Unused], t.counter - 1)
    else if t.counter == TokenCapacity || card.None? then t
    else
      FreeEntryExists(t);
      var e := LastUnused(t.slots);
      PlaceKeepsInv(t, e, slot, card.value);
      TokenState(t.slots[e := slot], t.cards[e := card.value], t.counter + 1)
  }

  /** Freeing a used entry in both rows, with the counter lowered by one, keeps the invariant. */
  lemma RemoveKeepsInv(t: TokenState, k: int)
    requires Inv(t) && 0 <= k < TokenCapacity && t.slots[k] != Unused
    ensures Inv(TokenState(t.slots[k := Unused], t.cards[k := Unused], t.counter - 1))
  {
    Used3(t.slots);
    Used3(t.slots[k := Unused]);
  }

  /** Writing a new slot and its card into a free entry, with the counter raised by one, keeps the invariant. */
  lemma PlaceKeepsInv(t: TokenState, e: int, slot: int, card: Card)
    requires Inv(t) && 0 <= e < TokenCapacity && t.slots[e] == Unused
    requires 0 <= slot < SlotCount && slot !in t.slots
    ensures Inv(TokenState(t.slots[e := slot], t.cards[e := card], t.counter + 1))
  {
    Used3(t.slots);
    Used3(t.slots[e := slot]);
  }

  /**
   * The toggle rule. A press on a marked slot clears exactly that entry in
   * both rows and lowers the counter by one; a press on a new slot with
   * fewer than three tokens writes the slot and its card into a free entry
   * and raises the counter by one; a fourth token is dropped.
   */
  lemma ToggleCases(t: TokenState, slot: int, card: Option<Card>)
    requires Inv(t) && 0 <= slot < SlotCount
    ensures var r := Toggle(t, slot, card);
      && (forall k :: 0 <= k < TokenCapacity && t.slots[k] == slot ==>
            && r.counter == t.counter - 1
            && r.slots == t.slots[k := Unused] && r.cards == t.cards[k := Unused])
      && (slot !in t.slots && t.counter < TokenCapacity && card.Some? ==>
            exists e :: 0 <= e < TokenCapacity && t.slots[e] == Unused
              && r.slots == t.slots[e := slot] && r.cards == t.cards[e := card.value]
              && r.counter == t.counter + 1)
      && (slot !in t.slots && (t.counter == TokenCapacity || card.None?) ==> r == t)
  {
    var r := Toggle(t, slot, card);
    if slot !in t.slots && t.counter < TokenCapacity && card.Some? {
      FreeEntryExists(t);
      var e := LastUnused(t.slots);
      assert t.slots[e] == Unused && r.slots == t.slots[e := slot];
    }
  }

  /**
   * A second press of a slot just marked takes the token back: the rows
   * and the counter are as before the first press.
   */
  lemma ToggleUndo(t: TokenState, slot: int, card: Card)
    requires Inv(t) && 0 <= slot < SlotCount
    requires slot !in t.slots && t.counter < TokenCapacity
    ensures Toggle(t, slot, Some(card)) != t
    ensures Toggle(Toggle(t, slot, Some(card)), slot, Some(card)) == t
  {
    FreeEntryExists(t);
    var e := LastUnused(t.slots);
    var r := Toggle(t, slot, Some(card));
    assert r.slots == t.slots[e := slot];
    assert r.slots[e] == slot;
    var k := IndexOf(r.slots, slot);
    assert k == e by {
      assert forall i :: 0 <= i < TokenCapacity && i != e ==> r.slots[i] == t.slots[i] != slot;
    }
    assert t.slots[e] == Unused && t.cards[e] == Unused;
    assert r.slots[e := Unused] == t.slots;
    assert r.cards[e := Unused] == t.cards;
  }

  /** Whether a token placement completed a claim (the third token). */
  predicate Completes(t: TokenState, r: TokenState)
  {
    t.counter < TokenCapacity && r.counter == TokenCapacity
  }

  lemma CompletesOnlyByPlacing(t: TokenState, slot: int, card: Option<Card>)
    requires Inv(t) && 0 <= slot < SlotCount
    ensures Completes(t, Toggle(t, slot, card)) <==>
      slot !in t.slots && t.counter == TokenCapacity - 1 && card.Some?
  {
    InvBounds(t);
    ToggleCases(t, slot, card);
  }

  /** What tokenAction's placement leaves when it ends. */
  datatype Outcome = Done(tokens: TokenState) | Crashed(tokens: TokenState)

  /**
   * tokenAction as written in the source: the new slot is stored first and
   * the card is then unboxed from the table; when the slot has meanwhile
   * become empty the unboxing throws, leaving the slot stored without its
   * card and the counter not raised, and the player's thread ends.
   */
  function ToggleAsWritten(t: TokenState, slot: int, card: Option<Card>): (o: Outcome)
    requires Inv(t) && 0 <= slot < SlotCount
    ensures o.Crashed? <==> slot !in t.slots && t.counter != TokenCapacity && card.None?
  {
    var k := IndexOf(t.slots, slot);
    if k < |t.slots| then Done(TokenState(t.slots[k := Unused], t.cards[k := Unused], t.counter - 1))
    else if t.counter == TokenCapacity then Done(t)
    else
      FreeEntryExists(t);
      var e := LastUnused(t.slots);
      var written := t.(slots := t.slots[e := slot]);
      match card
      case None => Crashed(written)
      case Some(c) => Done(written.(cards := t.cards[e := c], counter := t.counter + 1))
  }

  /** While the pressed slot still shows a card the written code and Toggle agree. */
  lemma AsWrittenAgreesOnCards(t: TokenState, slot: int, card: Option<Card>)
    requires Inv(t) && 0 <= slot < SlotCount
    requires card.Some? || slot in t.slots || t.counter == TokenCapacity
    ensures ToggleAsWritten(t, slot, card) == Done(Toggle(t, slot, card))
  {
  }

  /**
   * The written code fails on every press of a new slot that has become
   * empty while the player holds fewer than three tokens: the press throws
   * and leaves the rows out of step with the counter.
   */
  lemma AsWrittenCrashesOnEmptySlot(t: TokenState, slot: int)
    requires Inv(t) && 0 <= slot < SlotCount
    requires slot !in t.slots && t.counter < TokenCapacity
    ensures ToggleAsWritten(t, slot, None).Crashed?
    ensures !Inv(ToggleAsWritten(t, slot, None).tokens)
  {
    FreeEntryExists(t);
    var e := LastUnused(t.slots);
    var w := ToggleAsWritten(t, slot, None).tokens;
    assert w.slots[e] == slot && w.cards[e] == Unused;
  }

  /**
   * Whether entry `i` of a claim still matches the table: its slot shows the
   * card recorded when the token was placed.
   */
  predicate Matches(t: TokenState, tbl: seq<Option<Card>>, i: int)
    requires Rows3(t) && 0 <= i < TokenCapacity
  {
    0 <= t.slots[i] < |tbl| && tbl[t.slots[i]].Some? && tbl[t.slots[i]].value == t.cards[i]
  }

  /** Both rows have their three entries. */
  predicate Rows3(t: TokenState)
  {
    |t.slots| == TokenCapacity && |t.cards| == TokenCapacity
  }

  /** A claim: three tokens held, checked against a table of twelve slots. */
  predicate Claimable(t: TokenState, tbl: seq<Option<Card>>)
  {
    Inv(t) && t.counter == TokenCapacity && |tbl| == SlotCount
  }

  /** Three tokens held means every entry names a slot of the table. */
  lemma FullSlotsInRange(t: TokenState)
    requires Inv(t) && t.counter == TokenCapacity
    ensures forall i :: 0 <= i < TokenCapacity ==> 0 <= t.slots[i] < SlotCount
  {
    InvBounds(t);
  }

  /** Number of the first `n` entries of a claim that no longer match the table. */
  function Mismatches(t: TokenState, tbl: seq<Option<Card>>, n: nat): nat
    requires Rows3(t) && n <= TokenCapacity
  {
    if n == 0 then 0 else Mismatches(t, tbl, n - 1) + (if Matches(t, tbl, n - 1) then 0 else 1)
  }

  /** Mismatches, written out for the three entries of a claim. */
  lemma Mismatches3(t: TokenState, tbl: seq<Option<Card>>)
    requires Rows3(t)
    ensures Mismatches(t, tbl, TokenCapacity) ==
      (if Matches(t, tbl, 0) then 0 else 1) + (if Matches(t, tbl, 1) then 0 else 1) + (if Matches(t, tbl, 2) then 0 else 1)
  {
    assert Mismatches(t, tbl, 1) == (if Matches(t, tbl, 0) then 0 else 1);
  }

  /** A claim is stale when one of its entries no longer matches the table. */
  predicate Stale(t: TokenState, tbl: seq<Option<Card>>)
    requires Rows3(t)
  {
    Mismatches(t, tbl, TokenCapacity) > 0
  }

  /**
   * The staleness check of setTest: every entry whose slot is now empty or
   * shows another card is reset in both rows, and the counter drops by the
   * number of entries reset.
   */
  function DropStale(t: TokenState, tbl: seq<Option<Card>>): (r: TokenState)
    requires Rows3(t)
    ensures Rows3(r) && r.counter <= t.counter
    ensures forall i :: 0 <= i < TokenCapacity ==>
      (r.slots[i], r.cards[i]) in {(t.slots[i], t.cards[i]), (Unused, Unused)}
  {
    TokenState(
      seq(TokenCapacity, i requires 0 <= i < TokenCapacity => if Matches(t, tbl, i) then t.slots[i] else Unused),
      seq(TokenCapacity, i requires 0 <= i < TokenCapacity => if Matches(t, tbl, i) then t.cards[i] else Unused),
      t.counter - Mismatches(t, tbl, TokenCapacity))
  }

  lemma StaleIffSomeMismatch(t: TokenState, tbl: seq<Option<Card>>)
    requires Rows3(t)
    ensures Stale(t, tbl) <==> exists i :: 0 <= i < TokenCapacity && !Matches(t, tbl, i)
  {
    Mismatches3(t, tbl);
  }

  /**
   * Removal of stale entries is exact and keeps the invariant: matching
   * entries stay, mismatched ones are freed in both rows, and the counter
   * again counts the entries in use, now fewer than three when the claim
   * was stale.
   */
  lemma DropStaleExact(t: TokenState, tbl: seq<Option<Card>>)
    requires Claimable(t, tbl)
    ensures var r := DropStale(t, tbl);
      && Inv(r)
      && (forall i :: 0 <= i < TokenCapacity ==>
            if Matches(t, tbl, i) then r.slots[i] == t.slots[i] && r.cards[i] == t.cards[i]
            else r.slots[i] == Unused && r.cards[i] == Unused)
      && (Stale(t, tbl) <==> r.counter < TokenCapacity)
      && (!Stale(t, tbl) ==> r == t)
  {
    var r := DropStale(t, tbl);
    FullSlotsInRange(t);
    Mismatches3(t, tbl);
    Used3(t.slots);
    Used3(r.slots);
    if !Stale(t, tbl) {
      assert r.slots == t.slots;
      assert r.cards == t.cards;
    }
  }
}

/**
 * Cards, the table's slot array and the dealer's deck as values.
 *
 * A card is an id drawn from the deck `0 .. deckSize - 1`, so it is never
 * negative. The table is the `slotToCard` array of the table object: entry
 * `s` is `Some(c)` when slot `s` shows card `c` and `None` when it is empty.
 * The functions here follow the loops of the dealer's transfers between
 * deck and table; the `Game` module runs those loops on the real array.
 * Card ownership is stated card by card: `InGame(deck, tbl, c)` counts the
 * copies of `c` in the deck and on the table.
 */
module Cards {
  import opened Wrappers

  type Card = nat

  /** Number of slots on the table (the dealer's loops run to 12). */
  const SlotCount := 12

  /** 1 when the slot content `o` is card `c`, else 0. */
  function Occurs(o: Option<Card>, c: Card): nat
  {
    if o == Some(c) then 1 else 0
  }

  /** Number of slots of the table showing card `c`. */
  function OnTable(tbl: seq<Option<Card>>, c: Card): nat
  {
    if tbl == [] then 0 else Occurs(tbl[0], c) + OnTable(tbl[1..], c)
  }

  /** Number of copies of card `c` in the deck and on the table together. */
  function InGame(deck: seq<Card>, tbl: seq<Option<Card>>, c: Card): nat
  {
    multiset(deck)[c] + OnTable(tbl, c)
  }

  /** No card is duplicated: not in the deck, not on the table, not between the two. */
  ghost predicate Distinct(deck: seq<Card>, tbl: seq<Option<Card>>)
  {
    forall c :: InGame(deck, tbl, c) <= 1
  }

  /** A slot order as produced by shuffling the list 0 .. 11: every slot exactly once. */
  predicate IsSlotOrder(order: seq<int>)
  {
    && |order| == SlotCount
    && (forall i :: 0 <= i < |order| ==> 0 <= order[i] < SlotCount)
    && (forall i, j :: 0 <= i < j < |order| ==> order[i] != order[j])
    && (forall s :: 0 <= s < SlotCount ==> s in order)
  }

  /** Slots that may index `tbl`, each named once. */
  predicate DistinctSlots(slots: seq<int>, tbl: seq<Option<Card>>)
  {
    && (forall j :: 0 <= j < |slots| ==> 0 <= slots[j] < |tbl|)
    && (forall i, j :: 0 <= i < j < |slots| ==> slots[i] != slots[j])
  }

  lemma {:induction false} OnTableUpdate(tbl: seq<Option<Card>>, i: int, v: Option<Card>, c: Card)
    requires 0 <= i < |tbl|
    ensures OnTable(tbl[i := v], c) + Occurs(tbl[i], c) == OnTable(tbl, c) + Occurs(v, c)
  {
    var u := tbl[i := v];
    if i == 0 {
      assert u[1..] == tbl[1..];
    } else {
      var t := tbl[1..];
      assert u[1..] == t[i - 1 := v];
      OnTableUpdate(t, i - 1, v, c);
    }
  }

  lemma {:induction false} OnTableEmpty(tbl: seq<Option<Card>>, c: Card)
    requires forall s :: 0 <= s < |tbl| ==> tbl[s].None?
    ensures OnTable(tbl, c) == 0
  {
    if tbl != [] {
      OnTableEmpty(tbl[1..], c);
    }
  }

  lemma OnTableHolds(tbl: seq<Option<Card>>, s: int)
    requires 0 <= s < |tbl| && tbl[s].Some?
    ensures OnTable(tbl, tbl[s].value) >= 1
  {
    OnTableUpdate(tbl, s, None, tbl[s].value);
  }

  /**
   * `List.remove(Object)` on the deck: removes the first occurrence of `x`,
   * if there is one.
   */
  function RemoveFirst(deck: seq<Card>, x: Card): (r: seq<Card>)
    ensures x !in deck ==> r == deck
    ensures x in deck ==> |r| == |deck| - 1 && multiset(r) == multiset(deck) - multiset{x}
  {
    if deck == [] then []
    else if deck[0] == x then
      assert deck == [deck[0]] + deck[1..];
      deck[1..]
    else
      assert deck == [deck[0]] + deck[1..];
      assert x in deck ==> x in deck[1..];
      [deck[0]] + RemoveFirst(deck[1..], x)
  }

  /**
   * When the first copy of `x` in the deck is at position `i`, RemoveFirst
   * takes out exactly that copy and keeps the order of the rest.
   */
  lemma {:induction false} RemoveFirstAt(deck: seq<Card>, x: Card, i: nat)
    requires i < |deck| && deck[i] == x
    requires forall j :: 0 <= j < i ==> deck[j] != x
    ensures RemoveFirst(deck, x) == deck[..i] + deck[i + 1..]
  {
    if i == 0 {
      assert deck[..0] + deck[1..] == deck[1..];
    } else {
      RemoveFirstAt(deck[1..], x, i - 1);
      assert RemoveFirst(deck, x) == [deck[0]] + RemoveFirst(deck[1..], x);
      DropAtCons(deck, i);
    }
  }

  /** Taking out position `i > 0` commutes with taking off the head. */
  lemma DropAtCons(deck: seq<Card>, i: nat)
    requires 0 < i < |deck|
    ensures deck[..i] + deck[i + 1..] == [deck[0]] + (deck[1..][..i - 1] + deck[1..][i..])
  {
    assert deck[..i] == [deck[0]] + deck[1..][..i - 1];
    assert deck[i + 1..] == deck[1..][i..];
  }

  /**
   * The first loop of replaceSetCards: for each claimed slot in turn, remove
   * its card from the deck (List.remove(Object)) and clear the slot.
   */
  function ClearClaimed(tbl: seq<Option<Card>>, deck: seq<Card>, claimed: seq<int>): (r: (seq<Option<Card>>, seq<Card>))
    requires forall j :: 0 <= j < |claimed| ==> 0 <= claimed[j] < |tbl|
    ensures |r.0| == |tbl| && |r.1| <= |deck|
    ensures forall j :: 0 <= j < |claimed| ==> r.0[claimed[j]].None?
    ensures forall s {:trigger r.0[s]} :: 0 <= s < |tbl| && s !in claimed ==> r.0[s] == tbl[s]
    decreases claimed
  {
    if claimed == [] then (tbl, deck)
    else
      var s := claimed[0];
      var deck' := if tbl[s].Some? then RemoveFirst(deck, tbl[s].value) else deck;
      ClearClaimed(tbl[s := None], deck', claimed[1..])
  }

  /**
   * The dealing loop shared by placeCardsOnTable and replaceSetCards: while
   * slots remain and the deck is not empty, move the deck's first card into
   * the next slot.
   */
  function DealInto(tbl: seq<Option<Card>>, deck: seq<Card>, slots: seq<int>): (r: (seq<Option<Card>>, seq<Card>))
    requires forall j :: 0 <= j < |slots| ==> 0 <= slots[j] < |tbl|
    ensures |r.0| == |tbl|
    ensures |r.1| == |deck| - (if |slots| < |deck| then |slots| else |deck|)
    ensures forall s {:trigger r.0[s]} :: 0 <= s < |tbl| && s !in slots ==> r.0[s] == tbl[s]
    decreases slots
  {
    if slots == [] || deck == [] then (tbl, deck)
    else DealInto(tbl[slots[0] := Some(deck[0])], deck[1..], slots[1..])
  }

  /** replaceSetCards: clear the claimed slots, then refill them from the deck. */
  function Refill(tbl: seq<Option<Card>>, deck: seq<Card>, claimed: seq<int>): (r: (seq<Option<Card>>, seq<Card>))
    requires forall j :: 0 <= j < |claimed| ==> 0 <= claimed[j] < |tbl|
    ensures |r.0| == |tbl| && |r.1| <= |deck|
    ensures forall s {:trigger r.0[s]} :: 0 <= s < |tbl| && s !in claimed ==> r.0[s] == tbl[s]
  {
    var cleared := ClearClaimed(tbl, deck, claimed);
    DealInto(cleared.0, cleared.1, claimed)
  }

  /**
   * The loop of removeAllCardsFromTable: visit the slots in `order`, append
   * each card found to the deck and clear its slot.
   */
  function Collect(tbl: seq<Option<Card>>, deck: seq<Card>, order: seq<int>): (r: (seq<Option<Card>>, seq<Card>))
    requires forall j :: 0 <= j < |order| ==> 0 <= order[j] < |tbl|
    ensures |r.0| == |tbl|
    ensures |deck| <= |r.1| && r.1[..|deck|] == deck
    decreases order
  {
    if order == [] then (tbl, deck)
    else
      var s := order[0];
      if tbl[s].Some? then Collect(tbl[s := None], deck + [tbl[s].value], order[1..])
      else Collect(tbl, deck, order[1..])
  }

  /** Number of claimed slots showing card `c`. */
  function Claimed(tbl: seq<Option<Card>>, claimed: seq<int>, c: Card): nat
    requires forall j :: 0 <= j < |claimed| ==> 0 <= claimed[j] < |tbl|
  {
    if claimed == [] then 0 else Occurs(tbl[claimed[0]], c) + Claimed(tbl, claimed[1..], c)
  }

  lemma {:induction false} ClaimedUnaffected(tbl: seq<Option<Card>>, s: int, v: Option<Card>, claimed: seq<int>, c: Card)
    requires 0 <= s < |tbl| && s !in claimed
    requires forall j :: 0 <= j < |claimed| ==> 0 <= claimed[j] < |tbl|
    ensures Claimed(tbl[s := v], claimed, c) == Claimed(tbl, claimed, c)
  {
    if claimed != [] {
      ClaimedUnaffected(tbl, s, v, claimed[1..], c);
    }
  }

  lemma {:induction false} ClaimedHolds(tbl: seq<Option<Card>>, claimed: seq<int>, j: int)
    requires forall i :: 0 <= i < |claimed| ==> 0 <= claimed[i] < |tbl|
    requires 0 <= j < |claimed| && tbl[claimed[j]].Some?
    ensures Claimed(tbl, claimed, tbl[claimed[j]].value) >= 1
  {
    if j > 0 {
      ClaimedHolds(tbl, claimed[1..], j - 1);
    }
  }

  /** The head of a list of distinct slots does not occur in its tail. */
  lemma HeadNotInTail(slots: seq<int>, tbl: seq<Option<Card>>)
    requires DistinctSlots(slots, tbl) && slots != []
    ensures slots[0] !in slots[1..] && DistinctSlots(slots[1..], tbl)
  {
    forall i | 0 <= i < |slots| - 1 ensures slots[1..][i] != slots[0] {
      assert slots[1..][i] == slots[i + 1];
    }
  }

  /**
   * Clearing the claimed slots empties them, leaves every other slot alone,
   * and leaves the deck as it is when none of their cards is in the deck.
   */
  lemma {:induction false} ClearClaimedShape(tbl: seq<Option<Card>>, deck: seq<Card>, claimed: seq<int>)
    requires DistinctSlots(claimed, tbl)
    requires forall j :: 0 <= j < |claimed| && tbl[claimed[j]].Some? ==> tbl[claimed[j]].value !in deck
    ensures var r := ClearClaimed(tbl, deck, claimed);
      && r.1 == deck
      && (forall j :: 0 <= j < |claimed| ==> r.0[claimed[j]].None?)
      && (forall s :: 0 <= s < |tbl| && s !in claimed ==> r.0[s] == tbl[s])
    decreases claimed
  {
    if claimed != [] {
      var s := claimed[0];
      var rest := claimed[1..];
      HeadNotInTail(claimed, tbl);
      var t1 := tbl[s := None];
      forall j | 0 <= j < |rest| && t1[rest[j]].Some? ensures t1[rest[j]].value !in deck {
        assert rest[j] == claimed[j + 1];
      }
      ClearClaimedShape(t1, deck, rest);
      var r := ClearClaimed(tbl, deck, claimed);
      forall j | 0 <= j < |claimed| ensures r.0[claimed[j]].None? {
        if j > 0 {
          assert claimed[j] == rest[j - 1];
        }
      }
    }
  }

  /** Clearing the claimed slots takes exactly their cards off the table. */
  lemma {:induction false} ClearClaimedCounts(tbl: seq<Option<Card>>, deck: seq<Card>, claimed: seq<int>, c: Card)
    requires DistinctSlots(claimed, tbl)
    ensures OnTable(ClearClaimed(tbl, deck, claimed).0, c) + Claimed(tbl, claimed, c) == OnTable(tbl, c)
    decreases claimed
  {
    if claimed != [] {
      var s := claimed[0];
      var rest := claimed[1..];
      HeadNotInTail(claimed, tbl);
      var t1 := tbl[s := None];
      var d1 := if tbl[s].Some? then RemoveFirst(deck, tbl[s].value) else deck;
      ClearClaimedCounts(t1, d1, rest, c);
      ClaimedUnaffected(tbl, s, None, rest, c);
      OnTableUpdate(tbl, s, None, c);
    }
  }

  /**
   * Dealing moves the deck's first cards, in order, into the given slots: the
   * j-th slot receives the j-th card while cards last and keeps its content
   * once the deck is exhausted; the deck loses exactly min(|slots|, |deck|)
   * cards from its front, and every other slot is left alone.
   */
  lemma {:induction false} DealIntoShape(tbl: seq<Option<Card>>, deck: seq<Card>, slots: seq<int>)
    requires DistinctSlots(slots, tbl)
    ensures var r := DealInto(tbl, deck, slots);
      var k := if |slots| < |deck| then |slots| else |deck|;
      && r.1 == deck[k..]
      && (forall j :: 0 <= j < |slots| ==> r.0[slots[j]] == if j < |deck| then Some(deck[j]) else tbl[slots[j]])
      && (forall s :: 0 <= s < |tbl| && s !in slots ==> r.0[s] == tbl[s])
    decreases slots
  {
    if slots != [] && deck != [] {
      var s := slots[0];
      var rest := slots[1..];
      HeadNotInTail(slots, tbl);
      var t1 := tbl[s := Some(deck[0])];
      DealIntoShape(t1, deck[1..], rest);
      var r := DealInto(tbl, deck, slots);
      forall j | 0 <= j < |slots|
        ensures r.0[slots[j]] == if j < |deck| then Some(deck[j]) else tbl[slots[j]]
      {
        if j > 0 {
          assert slots[j] == rest[j - 1];
          assert j < |deck| ==> deck[j] == deck[1..][j - 1];
          assert t1[slots[j]] == tbl[slots[j]];
        }
      }
      forall x | 0 <= x < |tbl| && x !in slots ensures r.0[x] == tbl[x] {
        assert x !in rest && x != s;
      }
    }
  }

  /** Dealing into empty slots only moves cards: every card keeps its number of copies in the game. */
  lemma {:induction false} DealIntoCounts(tbl: seq<Option<Card>>, deck: seq<Card>, slots: seq<int>, c: Card)
    requires DistinctSlots(slots, tbl)
    requires forall j :: 0 <= j < |slots| ==> tbl[slots[j]].None?
    ensures var r := DealInto(tbl, deck, slots); InGame(r.1, r.0, c) == InGame(deck, tbl, c)
    decreases slots
  {
    if slots != [] && deck != [] {
      var s := slots[0];
      var rest := slots[1..];
      HeadNotInTail(slots, tbl);
      var t1 := tbl[s := Some(deck[0])];
      forall j | 0 <= j < |rest| ensures t1[rest[j]].None? {
        assert rest[j] == slots[j + 1];
      }
      DealIntoCounts(t1, deck[1..], rest, c);
      OnTableUpdate(tbl, s, Some(deck[0]), c);
      assert deck == [deck[0]] + deck[1..];
    }
  }

  /**
   * Dealing never adds a copy of a card to the game: a card dealt onto an
   * occupied slot replaces the card shown there, which leaves the game.
   */
  lemma {:induction false} DealIntoNoGain(tbl: seq<Option<Card>>, deck: seq<Card>, slots: seq<int>, c: Card)
    requires forall j :: 0 <= j < |slots| ==> 0 <= slots[j] < |tbl|
    ensures var r := DealInto(tbl, deck, slots); InGame(r.1, r.0, c) <= InGame(deck, tbl, c)
    decreases slots
  {
    if slots != [] && deck != [] {
      var s := slots[0];
      DealIntoNoGain(tbl[s := Some(deck[0])], deck[1..], slots[1..], c);
      OnTableUpdate(tbl, s, Some(deck[0]), c);
      assert deck == [deck[0]] + deck[1..];
    }
  }

  /** Dealing onto any slots keeps the game free of duplicated cards. */
  lemma DealIntoKeepsDistinct(tbl: seq<Option<Card>>, deck: seq<Card>, slots: seq<int>)
    requires forall j :: 0 <= j < |slots| ==> 0 <= slots[j] < |tbl|
    requires Distinct(deck, tbl)
    ensures var r := DealInto(tbl, deck, slots); Distinct(r.1, r.0)
  {
    var r := DealInto(tbl, deck, slots);
    forall c ensures InGame(r.1, r.0, c) <= 1 {
      DealIntoNoGain(tbl, deck, slots, c);
    }
  }

  /** The dealer's initial deck: the card ids 0 .. n - 1 in order. */
  function FullDeck(n: nat): (d: seq<Card>)
    ensures |d| == n && forall i :: 0 <= i < n ==> d[i] == i
  {
    seq(n, i requires 0 <= i => i)
  }

  /** The initial deck holds every card below `n` exactly once and no other card. */
  lemma {:induction false} FullDeckCounts(n: nat, c: Card)
    ensures multiset(FullDeck(n))[c] == if c < n then 1 else 0
  {
    if n > 0 {
      FullDeckCounts(n - 1, c);
      assert FullDeck(n) == FullDeck(n - 1) + [n - 1];
    }
  }

  /** With no card duplicated, a card on the table is not also in the deck. */
  lemma ClaimedNotInDeck(tbl: seq<Option<Card>>, deck: seq<Card>, claimed: seq<int>)
    requires forall j :: 0 <= j < |claimed| ==> 0 <= claimed[j] < |tbl|
    requires Distinct(deck, tbl)
    ensures forall j :: 0 <= j < |claimed| && tbl[claimed[j]].Some? ==> tbl[claimed[j]].value !in deck
  {
    forall j | 0 <= j < |claimed| && tbl[claimed[j]].Some?
      ensures tbl[claimed[j]].value !in deck
    {
      OnTableHolds(tbl, claimed[j]);
      assert InGame(deck, tbl, tbl[claimed[j]].value) <= 1;
    }
  }

  /**
   * replaceSetCards, with the claimed slots distinct and no card of the game
   * duplicated: the j-th claimed slot ends up with the deck's j-th card, or
   * empty once the deck has run out; the deck loses exactly
   * min(|claimed|, |deck|) cards from its front; every other slot keeps its
   * card.
   */
  lemma RefillShape(tbl: seq<Option<Card>>, deck: seq<Card>, claimed: seq<int>)
    requires DistinctSlots(claimed, tbl)
    requires Distinct(deck, tbl)
    ensures var r := Refill(tbl, deck, claimed);
      var k := if |claimed| < |deck| then |claimed| else |deck|;
      && r.1 == deck[k..]
      && (forall j :: 0 <= j < |claimed| ==> r.0[claimed[j]] == if j < |deck| then Some(deck[j]) else None)
      && (forall s :: 0 <= s < |tbl| && s !in claimed ==> r.0[s] == tbl[s])
  {
    ClaimedNotInDeck(tbl, deck, claimed);
    ClearClaimedShape(tbl, deck, claimed);
    var c := ClearClaimed(tbl, deck, claimed);
    DealIntoShape(c.0, c.1, claimed);
  }

  /**
   * replaceSetCards takes exactly the claimed cards out of the game: every
   * card loses as many copies as claimed slots showed it.
   */
  lemma RefillCounts(tbl: seq<Option<Card>>, deck: seq<Card>, claimed: seq<int>, c: Card)
    requires DistinctSlots(claimed, tbl)
    requires Distinct(deck, tbl)
    ensures var r := Refill(tbl, deck, claimed);
      InGame(r.1, r.0, c) + Claimed(tbl, claimed, c) == InGame(deck, tbl, c)
  {
    ClaimedNotInDeck(tbl, deck, claimed);
    ClearClaimedShape(tbl, deck, claimed);
    ClearClaimedCounts(tbl, deck, claimed, c);
    var cl := ClearClaimed(tbl, deck, claimed);
    DealIntoCounts(cl.0, cl.1, claimed, c);
  }

  /**
   * After replaceSetCards no card is duplicated, and the claimed cards are
   * neither on the table nor in the deck.
   */
  lemma RefillDiscards(tbl: seq<Option<Card>>, deck: seq<Card>, claimed: seq<int>)
    requires DistinctSlots(claimed, tbl)
    requires Distinct(deck, tbl)
    ensures var r := Refill(tbl, deck, claimed);
      && Distinct(r.1, r.0)
      && (forall j :: 0 <= j < |claimed| && tbl[claimed[j]].Some? ==> InGame(r.1, r.0, tbl[claimed[j]].value) == 0)
  {
    var r := Refill(tbl, deck, claimed);
    forall c ensures InGame(r.1, r.0, c) + Claimed(tbl, claimed, c) == InGame(deck, tbl, c) {
      RefillCounts(tbl, deck, claimed, c);
    }
    forall j | 0 <= j < |claimed| && tbl[claimed[j]].Some?
      ensures InGame(r.1, r.0, tbl[claimed[j]].value) == 0
    {
      ClaimedHolds(tbl, claimed, j);
    }
  }

  /**
   * removeAllCardsFromTable, visiting distinct slots: the visited slots end
   * up empty, the others are left alone, and every card keeps its number of
   * copies in the game.
   */
  lemma {:induction false} CollectEffect(tbl: seq<Option<Card>>, deck: seq<Card>, order: seq<int>)
    requires DistinctSlots(order, tbl)
    ensures var r := Collect(tbl, deck, order);
      && (forall j :: 0 <= j < |order| ==> r.0[order[j]].None?)
      && (forall s :: 0 <= s < |tbl| && s !in order ==> r.0[s] == tbl[s])
    decreases order
  {
    if order != [] {
      var s := order[0];
      var rest := order[1..];
      var r := Collect(tbl, deck, order);
      HeadNotInTail(order, tbl);
      if tbl[s].Some? {
        CollectEffect(tbl[s := None], deck + [tbl[s].value], rest);
      } else {
        CollectEffect(tbl, deck, rest);
      }
      forall j | 0 <= j < |order| ensures r.0[order[j]].None? {
        if j > 0 {
          assert order[j] == rest[j - 1];
        }
      }
    }
  }

  lemma {:induction false} CollectCounts(tbl: seq<Option<Card>>, deck: seq<Card>, order: seq<int>, c: Card)
    requires forall j :: 0 <= j < |order| ==> 0 <= order[j] < |tbl|
    ensures var r := Collect(tbl, deck, order); InGame(r.1, r.0, c) == InGame(deck, tbl, c)
    decreases order
  {
    if order != [] {
      var s := order[0];
      if tbl[s].Some? {
        CollectCounts(tbl[s := None], deck + [tbl[s].value], order[1..], c);
        OnTableUpdate(tbl, s, None, c);
      } else {
        CollectCounts(tbl, deck, order[1..], c);
      }
    }
  }

  /**
   * Visiting all twelve slots leaves the table empty and hands all its cards
   * to the deck, behind the cards the deck already held.
   */
  lemma CollectAll(tbl: seq<Option<Card>>, deck: seq<Card>, order: seq<int>)
    requires |tbl| == SlotCount && IsSlotOrder(order)
    ensures var r := Collect(tbl, deck, order);
      && (forall s :: 0 <= s < |tbl| ==> r.0[s].None?)
      && (forall c :: multiset(r.1)[c] == multiset(deck)[c] + OnTable(tbl, c))
  {
    CollectEffect(tbl, deck, order);
    var r := Collect(tbl, deck, order);
    forall s | 0 <= s < |tbl| ensures r.0[s].None? {
      assert s in order;
    }
    forall c ensures multiset(r.1)[c] == multiset(deck)[c] + OnTable(tbl, c) {
      CollectCounts(tbl, deck, order, c);
      OnTableEmpty(r.0, c);
    }
  }
}

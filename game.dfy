/**
 * The dealer and the players of the Set game, as the two classes of the
 * source with the fields their methods update in place.
 *
 * Each operation is one atomic method: the threads, sleeps, interrupts and
 * the dealer's `isFree` hand-off around them are not modelled. The table
 * object is its `slotToCard` array, shared by the dealer and every player.
 */
module Game {
  import opened Wrappers
  import opened Cards
  import opened Tokens
  import opened Scores

  /** Values of a player's `shouldSleep`: no pause, a point pause, a penalty pause. */
  const NoPause := 0
  const PointPause := 1
  const PenaltyPause := 2

  /** Capacity of a player's queue of pending key presses. */
  const PressCapacity := 3

  /** How the dealer adjudicates a claim (setTest). */
  datatype Verdict =
    | NotFull     // the player no longer holds three tokens: it is only woken
    | Overlapped  // some recorded slot is empty or shows another card: stale entries dropped
    | Illegal     // the three cards are not a set: penalty
    | Legal       // the three cards are a set: point, and the cards are replaced

  /**
   * The verdict of setTest on tokens `t` against table `tbl`, where `isSet`
   * stands for the environment's set-validity test.
   */
  function Judge(t: TokenState, tbl: seq<Option<Card>>, isSet: seq<int> -> bool): (v: Verdict)
    requires Inv(t) && |tbl| == SlotCount
    ensures v != NotFull ==> forall i :: 0 <= i < TokenCapacity ==> 0 <= t.slots[i] < SlotCount
  {
    InvBounds(t);
    if t.counter != TokenCapacity then NotFull
    else if Stale(t, tbl) then Overlapped
    else if isSet(t.cards) then Legal
    else Illegal
  }

  class Player {
    /** The player's id, starting from 0. */
    const id: int
    /** The table's slotToCard array. */
    const table: array<Option<Card>>
    /** Row 0 of tokensOnTable: the marked slots. */
    const tokenSlots: array<int>
    /** Row 1 of tokensOnTable: the card each marked slot showed when marked. */
    const tokenCards: array<int>
    var tokensCounter: int
    var score: nat
    /** Pending key presses, oldest first. */
    var playerPresses: seq<int>
    /** Whether the player takes key presses. */
    var available: bool
    var shouldSleep: int

    /** The player's tokens as a value. */
    ghost function Held(): TokenState
      reads this, tokenSlots, tokenCards
    {
      TokenState(tokenSlots[..], tokenCards[..], tokensCounter)
    }

    /** The two token rows are distinct arrays of three entries. */
    predicate Shaped()
    {
      tokenSlots != tokenCards && tokenSlots.Length == TokenCapacity && tokenCards.Length == TokenCapacity
    }

    ghost predicate Valid()
      reads this, tokenSlots, tokenCards
    {
      && id >= 0
      && table.Length == SlotCount
      && Shaped()
      && Inv(Held())
      && |playerPresses| <= PressCapacity
      && (forall k :: 0 <= k < |playerPresses| ==> 0 <= playerPresses[k] < SlotCount)
      && NoPause <= shouldSleep <= PenaltyPause
    }

    constructor (id: int, table: array<Option<Card>>)
      requires id >= 0 && table.Length == SlotCount
      ensures Valid() && fresh(tokenSlots) && fresh(tokenCards)
      ensures this.id == id && this.table == table
      ensures Held() == NoTokens() && score == 0 && playerPresses == []
      ensures available && shouldSleep == NoPause
    {
      this.id := id;
      this.table := table;
      tokenSlots := new int[TokenCapacity](_ => Unused);
      tokenCards := new int[TokenCapacity](_ => Unused);
      tokensCounter := 0;
      score := 0;
      playerPresses := [];
      available := true;
      shouldSleep := NoPause;
      new;
      assert tokenSlots[..] == [Unused, Unused, Unused];
      assert tokenCards[..] == [Unused, Unused, Unused];
      assert Held() == NoTokens();
    }

    /**
     * keyPressed: a press on `slot` is queued only when the slot shows a
     * card, the player is available and fewer than three presses are
     * pending; otherwise it is dropped.
     */
    method KeyPressed(slot: int)
      requires Valid() && 0 <= slot < SlotCount
      modifies this`playerPresses
      ensures Valid() && |playerPresses| <= PressCapacity
      ensures playerPresses ==
        if table[slot].Some? && available && |old(playerPresses)| < PressCapacity
        then old(playerPresses) + [slot] else old(playerPresses)
    {
      if table[slot].Some? && available {
        if |playerPresses| < PressCapacity {
          playerPresses := playerPresses + [slot];
        }
      }
    }

    /**
     * tokenAction on `slot`: toggles the player's token there (Toggle). When
     * this places the third token the player becomes unavailable and
     * submits its claim to the dealer's queue; it then waits for the dealer
     * (ResumeAfterClaim).
     */
    method TokenAction(slot: int, dealer: Dealer) returns (claimed: bool)
      requires Valid() && 0 <= slot < SlotCount
      modifies this`tokensCounter, this`available, tokenSlots, tokenCards, dealer`setCalls
      ensures Valid()
      ensures Held() == Toggle(old(Held()), slot, table[slot])
      ensures claimed == Completes(old(Held()), Held())
      ensures available == (old(available) && !claimed)
      ensures dealer.setCalls == old(dealer.setCalls) + (if claimed then [this] else [])
    {
      ghost var t := Held();
      var empty := -1;
      var i := 0;
      while i < TokenCapacity
        invariant 0 <= i <= TokenCapacity
        invariant Held() == t
        invariant forall j :: 0 <= j < i ==> tokenSlots[j] != slot
        invariant empty == -1 || (0 <= empty < i && tokenSlots[empty] == Unused)
        invariant forall j :: empty < j < i ==> tokenSlots[j] != Unused
      {
        if tokenSlots[i] == slot {
          // the slot is already marked: take the token back
          assert IndexOf(t.slots, slot) == i;
          tokenSlots[i] := Unused;
          tokenCards[i] := Unused;
          tokensCounter := tokensCounter - 1;
          assert Held().slots == t.slots[i := Unused];
          assert Held().cards == t.cards[i := Unused];
          assert Held() == Toggle(t, slot, table[slot]);
          return false;
        }
        if tokenSlots[i] == Unused {
          empty := i;
        }
        i := i + 1;
      }
      assert slot !in t.slots;
      assert IndexOf(t.slots, slot) == |t.slots|;
      assert empty == LastUnused(t.slots);
      claimed := false;
      // A fourth token is dropped; so is a press whose slot has been emptied
      // since it was queued (the source unboxes the missing card and throws).
      if tokensCounter != TokenCapacity && table[slot].Some? {
        FreeEntryExists(t);
        tokenSlots[empty] := slot;
        tokenCards[empty] := table[slot].value;
        tokensCounter := tokensCounter + 1;
        assert Held().slots == t.slots[empty := slot];
        assert Held().cards == t.cards[empty := table[slot].value];
        assert Held() == Toggle(t, slot, table[slot]);
        if tokensCounter == TokenCapacity {
          claimed := true;
          available := false;
          dealer.AddSet(this);
        }
      }
    }

    /** Woken by the dealer after its claim was adjudicated, the player is available again. */
    method ResumeAfterClaim()
      modifies this`available
      ensures available
    {
      available := true;
    }

    /**
     * One turn of the player's press loop: while no pause is pending the
     * oldest press is taken off the queue and handed to tokenAction.
     */
    method DrainPress(dealer: Dealer) returns (drained: bool, claimed: bool)
      requires Valid()
      modifies this`playerPresses, this`tokensCounter, this`available, tokenSlots, tokenCards, dealer`setCalls
      ensures Valid()
      ensures drained == (old(playerPresses) != [] && shouldSleep == NoPause)
      ensures drained ==> (playerPresses == old(playerPresses)[1..]
        && Held() == Toggle(old(Held()), old(playerPresses)[0], table[old(playerPresses)[0]]))
      ensures claimed == Completes(old(Held()), Held())
      ensures available == (old(available) && !claimed)
      ensures !drained ==> playerPresses == old(playerPresses) && Held() == old(Held()) && !claimed
      ensures dealer.setCalls == old(dealer.setCalls) + (if claimed then [this] else [])
    {
      drained := playerPresses != [] && shouldSleep == NoPause;
      claimed := false;
      if drained {
        var slot := playerPresses[0];
        playerPresses := playerPresses[1..];
        claimed := TokenAction(slot, dealer);
      }
    }

    /** removeAllTokens: frees every entry of both rows and zeroes the counter. */
    method RemoveAllTokens()
      requires Shaped()
      modifies this`tokensCounter, tokenSlots, tokenCards
      ensures Held() == NoTokens()
      ensures old(Valid()) ==> Valid()
    {
      for i := 0 to TokenCapacity
        invariant forall j :: 0 <= j < i ==> tokenSlots[j] == Unused && tokenCards[j] == Unused
      {
        tokenSlots[i] := Unused;
        tokenCards[i] := Unused;
      }
      tokensCounter := 0;
      assert tokenSlots[..] == [Unused, Unused, Unused];
      assert tokenCards[..] == [Unused, Unused, Unused];
      assert Held() == NoTokens();
    }

    /** point: one more point, all tokens cleared, available again. */
    method Point()
      requires Valid()
      modifies this`score, this`tokensCounter, this`available, tokenSlots, tokenCards
      ensures Valid()
      ensures score == old(score) + 1 && Held() == NoTokens() && available
    {
      score := score + 1;
      RemoveAllTokens();
      available := true;
    }

    /** penalty: once the freeze is over the player is available again; its tokens stay. */
    method Penalty()
      modifies this`available
      ensures available
    {
      available := true;
    }

    /**
     * The end of a turn of the player's loop: carry out the pause the dealer
     * asked for, then clear the request.
     */
    method Resolve()
      requires Valid()
      modifies this`score, this`tokensCounter, this`available, this`shouldSleep, tokenSlots, tokenCards
      ensures Valid() && shouldSleep == NoPause
      ensures old(shouldSleep) == PointPause ==> score == old(score) + 1 && Held() == NoTokens() && available
      ensures old(shouldSleep) == PenaltyPause ==> score == old(score) && Held() == old(Held()) && available
      ensures old(shouldSleep) == NoPause ==> score == old(score) && Held() == old(Held()) && available == old(available)
    {
      if shouldSleep == PointPause {
        Point();
      }
      if shouldSleep == PenaltyPause {
        Penalty();
      }
      shouldSleep := NoPause;
    }
  }

  /**
   * The players seated at `table`: each with its own two token rows, no
   * player listed twice and no token row shared between players.
   */
  predicate Seated(players: seq<Player>, table: array<Option<Card>>)
  {
    && (forall i :: 0 <= i < |players| ==> players[i].Shaped() && players[i].table == table)
    && (forall i, j :: 0 <= i < |players| && 0 <= j < |players| && i != j ==>
          && players[i] != players[j]
          && players[i].tokenSlots != players[j].tokenSlots && players[i].tokenSlots != players[j].tokenCards
          && players[i].tokenCards != players[j].tokenCards)
  }

  class Dealer {
    /** The table's slotToCard array. */
    const table: array<Option<Card>>
    const players: seq<Player>
    /** The cards left in the deck, front first. */
    var deck: seq<Card>
    /** Submitted claims, oldest first. */
    var setCalls: seq<Player>

    /** The dealer's invariant: a table of twelve slots, and no card duplicated between deck and table. */
    ghost predicate Valid()
      reads this, table
    {
      && table.Length == SlotCount
      && Distinct(deck, table[..])
    }

    /** The token rows of all players. */
    ghost function TokenRows(): set<array<int>>
    {
      (set p | p in players :: p.tokenSlots) + (set p | p in players :: p.tokenCards)
    }

    predicate PlayersSeated()
    {
      Seated(players, table)
    }

    /** A new dealer over an empty table, with the deck holding the cards 0 .. deckSize - 1 in order. */
    constructor (table: array<Option<Card>>, players: seq<Player>, deckSize: nat)
      requires table.Length == SlotCount && forall s :: 0 <= s < SlotCount ==> table[s].None?
      requires Seated(players, table)
      ensures Valid() && PlayersSeated()
      ensures this.table == table && this.players == players
      ensures deck == FullDeck(deckSize) && setCalls == []
    {
      this.table := table;
      this.players := players;
      deck := FullDeck(deckSize);
      setCalls := [];
      new;
      forall c ensures InGame(deck, table[..], c) <= 1 {
        FullDeckCounts(deckSize, c);
        OnTableEmpty(table[..], c);
      }
    }

    /** addSet: a claim joins the back of the queue. */
    method AddSet(player: Player)
      modifies this`setCalls
      ensures setCalls == old(setCalls) + [player]
    {
      setCalls := setCalls + [player];
    }

    /** setCalls.remove(0): the oldest claim leaves the queue first. */
    method TakeClaim() returns (player: Option<Player>)
      modifies this`setCalls
      ensures player == if old(setCalls) == [] then None else Some(old(setCalls)[0])
      ensures setCalls == if old(setCalls) == [] then [] else old(setCalls)[1..]
    {
      if setCalls == [] {
        player := None;
      } else {
        player := Some(setCalls[0]);
        setCalls := setCalls[1..];
      }
    }

    /**
     * The staleness loop of setTest on a claim: every entry whose slot is
     * now empty or shows another card is freed in both rows; returns the
     * number of entries freed. The counter is left to the caller.
     */
    method ClearStaleEntries(p: Player) returns (cardsOverlapped: int)
      requires table.Length == SlotCount && p.Shaped() && Claimable(p.Held(), table[..])
      modifies p.tokenSlots, p.tokenCards
      ensures cardsOverlapped == Mismatches(old(p.Held()), table[..], TokenCapacity)
      ensures TokenState(p.tokenSlots[..], p.tokenCards[..], p.tokensCounter - cardsOverlapped)
        == DropStale(old(p.Held()), table[..])
      ensures Inv(DropStale(old(p.Held()), table[..]))
      ensures cardsOverlapped == 0 ==> p.Held() == old(p.Held())
    {
      ghost var t := p.Held();
      ghost var tbl := table[..];
      ghost var r := DropStale(t, tbl);
      FullSlotsInRange(t);
      DropStaleExact(t, tbl);
      cardsOverlapped := 0;
      for i := 0 to TokenCapacity
        invariant cardsOverlapped == Mismatches(t, tbl, i)
        invariant forall j :: 0 <= j < i ==> p.tokenSlots[j] == r.slots[j] && p.tokenCards[j] == r.cards[j]
        invariant forall j :: i <= j < TokenCapacity ==> p.tokenSlots[j] == t.slots[j] && p.tokenCards[j] == t.cards[j]
      {
        var arrCard := p.tokenCards[i];
        var tableCard := table[p.tokenSlots[i]];
        assert Matches(t, tbl, i) <==> tableCard.Some? && arrCard == tableCard.value;
        if tableCard.None? || arrCard != tableCard.value {
          p.tokenCards[i] := Unused;
          p.tokenSlots[i] := Unused;
          cardsOverlapped := cardsOverlapped + 1;
        }
      }
      assert p.tokenSlots[..] == r.slots && p.tokenCards[..] == r.cards;
    }

    /**
     * setTest on the claim of player `p`; `isSet` stands for the
     * environment's set-validity test. Without three tokens nothing changes.
     * A stale claim loses its stale entries and nothing else changes. A
     * valid claim makes the player unavailable with a penalty pause, or,
     * when `isSet` accepts it, with a point pause and its cards replaced.
     */
    method SetTest(p: Player, isSet: seq<int> -> bool) returns (verdict: Verdict)
      requires Valid() && p.Valid() && p.table == table
      modifies p`tokensCounter, p`available, p`shouldSleep, p.tokenSlots, p.tokenCards, table, this`deck
      ensures Valid() && p.Valid()
      ensures verdict == Judge(old(p.Held()), old(table[..]), isSet)
      ensures p.Held() == if verdict == Overlapped then DropStale(old(p.Held()), old(table[..])) else old(p.Held())
      ensures p.shouldSleep == match verdict
        case Legal => PointPause
        case Illegal => PenaltyPause
        case _ => old(p.shouldSleep)
      ensures p.available == (old(p.available) && verdict !in {Legal, Illegal})
      ensures (table[..], deck) ==
        if verdict == Legal then Refill(old(table[..]), old(deck), old(p.tokenSlots[..]))
        else (old(table[..]), old(deck))
    {
      if p.tokensCounter == TokenCapacity {
        ghost var t := p.Held();
        ghost var tbl := table[..];
        var cardsOverlapped := ClearStaleEntries(p);
        if cardsOverlapped > 0 {
          p.tokensCounter := p.tokensCounter - cardsOverlapped;
          assert p.Held() == DropStale(t, tbl);
          assert p.Valid();
          verdict := Overlapped;
        } else {
          assert p.Held() == t;
          FullSlotsInRange(t);
          var legal := Adjudicate(p, isSet);
          verdict := if legal then Legal else Illegal;
        }
      } else {
        verdict := NotFull;
      }
    }

    /**
     * The branch of setTest for a claim that still matches the table: the
     * player becomes unavailable; when `isSet` rejects its cards it gets a
     * penalty pause and the table is left alone, and when `isSet` accepts
     * them it gets a point pause and replaceSetCards runs on its slots.
     */
    method Adjudicate(p: Player, isSet: seq<int> -> bool) returns (legal: bool)
      requires Valid() && p.Valid() && p.table == table
      requires forall j :: 0 <= j < TokenCapacity ==> 0 <= p.tokenSlots[j] < SlotCount
      modifies p`available, p`shouldSleep, table, this`deck
      ensures Valid() && p.Valid()
      ensures legal == isSet(p.tokenCards[..])
      ensures !p.available && p.shouldSleep == if legal then PointPause else PenaltyPause
      ensures legal ==> (table[..], deck) == Refill(old(table[..]), old(deck), p.tokenSlots[..])
      ensures !legal ==> table[..] == old(table[..]) && deck == old(deck)
    {
      legal := isSet(p.tokenCards[..]);
      p.available := false;
      if !legal {
        p.shouldSleep := PenaltyPause;
      } else {
        p.shouldSleep := PointPause;
        ReplaceSetCards(p.tokenSlots);
      }
    }

    /**
     * replaceSetCards on the claimed slots `setIndex`: each claimed slot is
     * cleared and its card leaves the game, then the slots are refilled in
     * order from the front of the deck while it lasts.
     */
    method ReplaceSetCards(setIndex: array<int>)
      requires Valid() && DistinctSlots(setIndex[..], table[..])
      modifies table, this`deck
      ensures Valid()
      ensures (table[..], deck) == Refill(old(table[..]), old(deck), setIndex[..])
    {
      ghost var slots := setIndex[..];
      ghost var cleared := ClearClaimed(table[..], deck, slots);
      for i := 0 to setIndex.Length
        invariant ClearClaimed(table[..], deck, slots[i..]) == cleared
      {
        assert slots[i..][1..] == slots[i + 1..];
        var s := setIndex[i];
        if table[s].Some? {
          deck := RemoveFirst(deck, table[s].value);
        }
        table[s] := None;
      }
      var emptyDeck := deck == [];
      var i := 0;
      while i < setIndex.Length && !emptyDeck
        invariant 0 <= i <= setIndex.Length
        invariant emptyDeck == (deck == [])
        invariant DealInto(table[..], deck, slots[i..]) == Refill(old(table[..]), old(deck), slots)
      {
        assert slots[i..][1..] == slots[i + 1..];
        table[setIndex[i]] := Some(deck[0]);
        deck := deck[1..];
        emptyDeck := deck == [];
        i := i + 1;
      }
      RefillDiscards(old(table[..]), old(deck), slots);
    }

    /** The player at the head of the queue, if any. */
    ghost function Head(): set<Player>
      reads this
    {
      if setCalls == [] then {} else {setCalls[0]}
    }

    /** The token rows of the player at the head of the queue. */
    ghost function HeadRows(): set<array<int>>
      reads this
    {
      if setCalls == [] then {} else {setCalls[0].tokenSlots, setCalls[0].tokenCards}
    }

    /**
     * The dealer's claim service: when a claim is pending, the oldest one is
     * taken off the queue and adjudicated by setTest.
     */
    method ServeNextClaim(isSet: seq<int> -> bool) returns (verdict: Option<Verdict>)
      requires Valid()
      requires setCalls != [] ==> setCalls[0].Valid() && setCalls[0].table == table
      modifies this`setCalls, this`deck, table
      modifies Head()`tokensCounter, Head()`available, Head()`shouldSleep, HeadRows()
      ensures Valid()
      ensures setCalls == if old(setCalls) == [] then [] else old(setCalls)[1..]
      ensures old(setCalls) == [] ==> verdict == None && deck == old(deck) && table[..] == old(table[..])
      ensures old(setCalls) != [] ==>
        var p := old(setCalls)[0];
        && verdict == Some(Judge(old(p.Held()), old(table[..]), isSet))
        && p.Valid()
        && p.Held() == (if verdict.value == Overlapped then DropStale(old(p.Held()), old(table[..])) else old(p.Held()))
        && p.shouldSleep == (match verdict.value
             case Legal => PointPause
             case Illegal => PenaltyPause
             case _ => old(p.shouldSleep))
        && p.available == (old(p.available) && verdict.value !in {Legal, Illegal})
        && p.score == old(p.score) && p.playerPresses == old(p.playerPresses)
        && (table[..], deck) ==
             if verdict.value == Legal then Refill(old(table[..]), old(deck), old(p.tokenSlots[..]))
             else (old(table[..]), old(deck))
    {
      var claim := TakeClaim();
      verdict := None;
      if claim.Some? {
        var v := SetTest(claim.value, isSet);
        verdict := Some(v);
      }
    }

    /** The removeAllTokens loop over the players. */
    method ResetAllTokens()
      requires PlayersSeated()
      modifies players`tokensCounter, TokenRows()
      ensures forall p :: p in players ==> p.Held() == NoTokens()
    {
      for i := 0 to |players|
        invariant forall j :: 0 <= j < i ==> players[j].Held() == NoTokens()
      {
        players[i].RemoveAllTokens();
      }
    }

    /**
     * placeCardsOnTable: every player's tokens are reset, then the cards are
     * dealt (DealCards) with the slot order `slotOrder` and the deck order
     * `shuffled` standing for the two shuffles.
     */
    method PlaceCardsOnTable(slotOrder: seq<int>, shuffled: seq<Card>)
      requires Valid() && PlayersSeated()
      requires IsSlotOrder(slotOrder) && multiset(shuffled) == multiset(deck)
      modifies players`tokensCounter, TokenRows(), table, this`deck
      ensures Valid()
      ensures forall p :: p in players ==> p.Held() == NoTokens()
      ensures (table[..], deck) == DealInto(old(table[..]), shuffled, slotOrder)
      ensures var k := if |shuffled| < SlotCount then |shuffled| else SlotCount;
        && deck == shuffled[k..]
        && (forall j :: 0 <= j < k ==> table[slotOrder[j]] == Some(shuffled[j]))
      ensures (forall s :: 0 <= s < SlotCount ==> old(table[s]).None?) ==>
        forall c :: InGame(deck, table[..], c) == InGame(old(deck), old(table[..]), c)
    {
      ResetAllTokens();
      DealCards(slotOrder, shuffled);
    }

    /**
     * The dealing part of placeCardsOnTable: the deck becomes `shuffled`,
     * then its first cards are moved into the slots in the order `slotOrder`
     * until twelve are placed or the deck runs out. A card dealt onto an
     * occupied slot replaces the one there, so no card is ever duplicated;
     * onto an empty table no card is lost either.
     */
    method DealCards(slotOrder: seq<int>, shuffled: seq<Card>)
      requires Valid() && IsSlotOrder(slotOrder) && multiset(shuffled) == multiset(deck)
      modifies table, this`deck
      ensures Valid()
      ensures (table[..], deck) == DealInto(old(table[..]), shuffled, slotOrder)
      ensures var k := if |shuffled| < SlotCount then |shuffled| else SlotCount;
        && deck == shuffled[k..]
        && (forall j :: 0 <= j < k ==> table[slotOrder[j]] == Some(shuffled[j]))
      ensures (forall s :: 0 <= s < SlotCount ==> old(table[s]).None?) ==>
        forall c :: InGame(deck, table[..], c) == InGame(old(deck), old(table[..]), c)
    {
      ghost var tbl := table[..];
      forall c ensures InGame(shuffled, tbl, c) <= 1 {
        assert InGame(shuffled, tbl, c) == InGame(deck, tbl, c);
      }
      deck := shuffled;
      DealFront(slotOrder);
      DealIntoShape(tbl, shuffled, slotOrder);
      DealIntoKeepsDistinct(tbl, shuffled, slotOrder);
      if forall s :: 0 <= s < SlotCount ==> tbl[s].None? {
        forall c ensures InGame(deck, table[..], c) == InGame(old(deck), tbl, c) {
          DealIntoCounts(tbl, shuffled, slotOrder, c);
        }
      }
    }

    /** The dealing loop of placeCardsOnTable: the deck's first cards go to the slots in the order `slotOrder`. */
    method DealFront(slotOrder: seq<int>)
      requires table.Length == SlotCount && IsSlotOrder(slotOrder)
      modifies table, this`deck
      ensures (table[..], deck) == DealInto(old(table[..]), old(deck), slotOrder)
    {
      var over := deck == [];
      var i := 0;
      while i < SlotCount && !over
        invariant 0 <= i <= SlotCount
        invariant over == (deck == [])
        invariant DealInto(table[..], deck, slotOrder[i..]) == DealInto(old(table[..]), old(deck), slotOrder)
      {
        assert slotOrder[i..][1..] == slotOrder[i + 1..];
        table[slotOrder[i]] := Some(deck[0]);
        deck := deck[1..];
        over := deck == [];
        i := i + 1;
      }
    }

    /**
     * removeAllCardsFromTable: every player's tokens are reset, then all
     * cards on the table go back to the deck (CollectCards), the slots
     * visited in the order `slotOrder` standing for the shuffle.
     */
    method RemoveAllCardsFromTable(slotOrder: seq<int>)
      requires Valid() && PlayersSeated() && IsSlotOrder(slotOrder)
      modifies players`tokensCounter, TokenRows(), table, this`deck
      ensures Valid()
      ensures forall p :: p in players ==> p.Held() == NoTokens()
      ensures (table[..], deck) == Collect(old(table[..]), old(deck), slotOrder)
      ensures forall s :: 0 <= s < SlotCount ==> table[s].None?
      ensures forall c :: multiset(deck)[c] == multiset(old(deck))[c] + OnTable(old(table[..]), c)
    {
      ResetAllTokens();
      CollectCards(slotOrder);
    }

    /**
     * The collecting part of removeAllCardsFromTable: the slots are visited
     * in the order `slotOrder`, and each card found is appended to the deck
     * and its slot cleared. The table ends up empty and the deck gains
     * exactly the cards that were on it.
     */
    method CollectCards(slotOrder: seq<int>)
      requires Valid() && IsSlotOrder(slotOrder)
      modifies table, this`deck
      ensures Valid()
      ensures (table[..], deck) == Collect(old(table[..]), old(deck), slotOrder)
      ensures forall s :: 0 <= s < SlotCount ==> table[s].None?
      ensures forall c :: multiset(deck)[c] == multiset(old(deck))[c] + OnTable(old(table[..]), c)
    {
      ghost var tbl := table[..];
      for i := 0 to SlotCount
        invariant Collect(table[..], deck, slotOrder[i..]) == Collect(tbl, old(deck), slotOrder)
      {
        assert slotOrder[i..][1..] == slotOrder[i + 1..];
        var j := slotOrder[i];
        if table[j].Some? {
          deck := deck + [table[j].value];
          table[j] := None;
        }
      }
      CollectAll(tbl, old(deck), slotOrder);
      forall c ensures InGame(deck, table[..], c) <= 1 {
        CollectCounts(tbl, old(deck), slotOrder, c);
      }
    }

    /**
     * announceWinners: the ids of the players holding the highest score, in
     * player order. The first loop (Tally) finds the highest score and how
     * many players hold it; the second (ListWinners) fills an array of
     * exactly that size.
     */
    method AnnounceWinners() returns (winners: seq<int>)
      requires |players| > 0
      ensures winners == Winners(ScoresOf(players), IdsOf(players))
    {
      var highest, numOfWinners := Tally();
      winners := ListWinners(highest, numOfWinners);
    }

    /** The first loop of announceWinners: the highest score and the number of players holding it. */
    method Tally() returns (highest: int, numOfWinners: int)
      requires |players| > 0
      ensures highest == MaxScore(ScoresOf(players))
      ensures numOfWinners == CountOf(ScoresOf(players), highest)
    {
      ghost var scores := ScoresOf(players);
      highest := players[0].score;
      numOfWinners := 1;
      assert scores[..1] == [scores[0]];
      for i := 1 to |players|
        invariant highest == MaxScore(scores[..i])
        invariant numOfWinners == CountOf(scores[..i], highest)
      {
        TallyStep(scores, i);
        if highest < players[i].score {
          highest := players[i].score;
          numOfWinners := 1;
        } else if highest == players[i].score {
          numOfWinners := numOfWinners + 1;
        }
      }
      assert scores[..|players|] == scores;
    }

    /**
     * The second loop of announceWinners: the ids of the players holding
     * `highest`, in player order, written into an array of `numOfWinners`
     * entries, which is exactly large enough.
     */
    method ListWinners(highest: int, numOfWinners: int) returns (winners: seq<int>)
      requires numOfWinners == CountOf(ScoresOf(players), highest)
      ensures winners == Pick(IdsOf(players), IndicesOf(ScoresOf(players), highest))
    {
      ghost var scores := ScoresOf(players);
      ghost var ids := IdsOf(players);
      var w := new int[numOfWinners];
      var index := 0;
      for i := 0 to |players|
        invariant index == CountOf(scores[..i], highest) <= numOfWinners
        invariant w[..index] == Pick(ids, IndicesOf(scores[..i], highest))
        invariant ScoresOf(players) == scores
      {
        ListStep(scores, ids, i, highest);
        if players[i].score == highest {
          CountOfPrefix(scores, i + 1, highest);
          w[index] := players[i].id;
          index := index + 1;
        }
      }
      assert scores[..|players|] == scores;
      winners := w[..];
    }
  }

  /** The players' scores, in player order. */
  function ScoresOf(players: seq<Player>): (s: seq<int>)
    reads players
    ensures |s| == |players| && forall i :: 0 <= i < |players| ==> s[i] == players[i].score
  {
    seq(|players|, i requires 0 <= i < |players| reads players => players[i].score)
  }

  /** The players' ids, in player order. */
  function IdsOf(players: seq<Player>): (s: seq<int>)
    ensures |s| == |players| && forall i :: 0 <= i < |players| ==> s[i] == players[i].id
  {
    seq(|players|, i requires 0 <= i < |players| => players[i].id)
  }
}

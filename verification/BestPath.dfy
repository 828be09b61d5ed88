/** `translate`: when the path that the search finds is a chain of translations, and when it is the best one. */
module BestPath {
  import opened Basics
  import opened FindPath

  // ----- Frames and their candidates -----

  /** The j-th output format of a translator. */
  datatype Candidate = Candidate(id: int, j: nat)

  predicate Has(r: Roster, c: Candidate) {
    c.id in r.outputs && c.j < |r.outputs[c.id]|
  }

  function FormatOf(r: Roster, c: Candidate): Format
    requires Has(r, c)
  {
    r.outputs[c.id][c.j]
  }

  /** One call of the search: the type it is at, the types seen above it, and the translators it tries. */
  datatype Frame = Frame(kind: nat, group: nat, seen: seq<nat>, ids: seq<int>)

  ghost function Found(r: Roster, target: nat, fr: Frame): Best {
    OverIds(r, target, fr.kind, fr.group, fr.seen, fr.ids, NOTHING)
  }

  ghost function SlotsOf(r: Roster, id: int, j: nat): (slots: seq<Candidate>)
    requires id in r.outputs && j <= |r.outputs[id]|
    ensures forall c :: c in slots ==> Has(r, c)
    decreases |r.outputs[id]| - j
  {
    if j == |r.outputs[id]| then [] else [Candidate(id, j)] + SlotsOf(r, id, j + 1)
  }

  /** The output formats of all translators of `ids` that accept a type, in the order in which the search looks at
      them. */
  ghost function Slots(r: Roster, kind: nat, ids: seq<int>): (slots: seq<Candidate>)
    ensures forall c :: c in slots ==> Has(r, c)
  {
    if ids == [] then []
    else (if Accepts(r, ids[0], kind) && ids[0] in r.outputs then SlotsOf(r, ids[0], 0) else [])
         + Slots(r, kind, ids[1..])
  }

  ghost function SlotsIn(r: Roster, fr: Frame): (slots: seq<Candidate>)
    ensures forall c :: c in slots ==> Has(r, c)
  {
    Slots(r, fr.kind, fr.ids)
  }

  /** The search goes into a candidate that is of the frame's group and of a type not seen. */
  ghost predicate Open(r: Roster, fr: Frame, c: Candidate) {
    Has(r, c) && Eligible(FormatOf(r, c), fr.kind, fr.group, fr.seen)
  }

  ghost predicate IsHit(r: Roster, target: nat, fr: Frame, c: Candidate) {
    Open(r, fr, c) && FormatOf(r, c).kind == target
  }

  function Sub(r: Roster, fr: Frame, c: Candidate): Frame
    requires Has(r, c)
  {
    Frame(FormatOf(r, c).kind, FormatOf(r, c).group, [fr.kind] + fr.seen, r.all)
  }

  // The types the search can still enter.
  ghost function Left(r: Roster, fr: Frame): set<nat> {
    Unseen(r, fr.seen, fr.kind)
  }

  lemma SubSmaller(r: Roster, fr: Frame, c: Candidate)
    requires Open(r, fr, c)
    ensures Left(r, Sub(r, fr, c)) < Left(r, fr)
  {
    Deeper(r, fr.seen, fr.kind, c.id, c.j);
  }

  // ----- A frame as a fold over what its candidates offer -----

  datatype Offer = Nothing | Hit(quality: real) | Find(path: seq<nat>, quality: real, fair: bool)

  /** What a candidate contributes to its frame. */
  ghost function OfferOf(r: Roster, target: nat, fr: Frame, c: Candidate): Offer {
    if !Open(r, fr, c) then Nothing
    else
      var f := FormatOf(r, c);
      if f.kind == target then Hit(Product(f))
      else
        var sub := Found(r, target, Sub(r, fr, c));
        if sub.found then Find([f.kind] + sub.path, sub.quality * Product(f), sub.fair) else Nothing
  }

  function Take(target: nat, best: Best, offer: Offer): Best {
    match offer
    case Nothing => best
    case Hit(quality) => Best(true, [target] + best.path, quality, best.path == [])
    case Find(path, quality, fair) => if best.quality < quality then Best(true, path, quality, fair) else best
  }

  function TakeAll(target: nat, offers: seq<Offer>, best: Best): Best
    decreases |offers|
  {
    if offers == [] then best else TakeAll(target, offers[1..], Take(target, best, offers[0]))
  }

  ghost function Offers(r: Roster, target: nat, fr: Frame, slots: seq<Candidate>): (offers: seq<Offer>)
    ensures |offers| == |slots| && forall i :: 0 <= i < |offers| ==> offers[i] == OfferOf(r, target, fr, slots[i])
  {
    if slots == [] then [] else [OfferOf(r, target, fr, slots[0])] + Offers(r, target, fr, slots[1..])
  }

  lemma {:induction false} TakeAllConcat(target: nat, a: seq<Offer>, b: seq<Offer>, best: Best)
    ensures TakeAll(target, a + b, best) == TakeAll(target, b, TakeAll(target, a, best))
    decreases |a|
  {
    if a == [] {
      assert a + b == b;
    } else {
      assert (a + b)[1..] == a[1..] + b;
      TakeAllConcat(target, a[1..], b, Take(target, best, a[0]));
    }
  }

  lemma {:induction false} OffersConcat(r: Roster, target: nat, fr: Frame, a: seq<Candidate>, b: seq<Candidate>)
    ensures Offers(r, target, fr, a + b) == Offers(r, target, fr, a) + Offers(r, target, fr, b)
  {
    hide OfferOf;
    var all, parts := Offers(r, target, fr, a + b), Offers(r, target, fr, a) + Offers(r, target, fr, b);
    assert |all| == |parts|;
    forall i | 0 <= i < |all| ensures all[i] == parts[i] {
      if i >= |a| { assert (a + b)[i] == b[i - |a|]; }
    }
  }

  lemma ConsiderTakes(r: Roster, target: nat, fr: Frame, id: int, j: nat, best: Best)
    requires id in r.outputs && j < |r.outputs[id]|
    ensures Consider(r, target, fr.kind, fr.group, fr.seen, id, j, best)
            == Take(target, best, OfferOf(r, target, fr, Candidate(id, j)))
  {
    hide OverIds, OverFormats;
  }

  lemma {:induction false} FormatsTakeAll(r: Roster, target: nat, fr: Frame, id: int, j: nat, best: Best)
    requires id in r.outputs && j <= |r.outputs[id]|
    ensures OverFormats(r, target, fr.kind, fr.group, fr.seen, id, j, best)
            == TakeAll(target, Offers(r, target, fr, SlotsOf(r, id, j)), best)
    decreases |r.outputs[id]| - j
  {
    hide Consider, OfferOf, Take, OverIds;
    if j < |r.outputs[id]| {
      ConsiderTakes(r, target, fr, id, j, best);
      FormatsTakeAll(r, target, fr, id, j + 1, Consider(r, target, fr.kind, fr.group, fr.seen, id, j, best));
      assert SlotsOf(r, id, j)[1..] == SlotsOf(r, id, j + 1);
    }
  }

  lemma {:induction false} IdsTakeAll(r: Roster, target: nat, fr: Frame, ids: seq<int>, best: Best)
    ensures OverIds(r, target, fr.kind, fr.group, fr.seen, ids, best)
            == TakeAll(target, Offers(r, target, fr, Slots(r, fr.kind, ids)), best)
    decreases |ids|
  {
    hide OfferOf, Take, OverFormats, Accepts;
    if ids != [] {
      var next := best;
      var first := [];
      if Accepts(r, ids[0], fr.kind) && ids[0] in r.outputs {
        FormatsTakeAll(r, target, fr, ids[0], 0, best);
        first := SlotsOf(r, ids[0], 0);
        next := OverFormats(r, target, fr.kind, fr.group, fr.seen, ids[0], 0, best);
      }
      IdsTakeAll(r, target, fr, ids[1..], next);
      OffersConcat(r, target, fr, first, Slots(r, fr.kind, ids[1..]));
      TakeAllConcat(target, Offers(r, target, fr, first), Offers(r, target, fr, Slots(r, fr.kind, ids[1..])), best);
    }
  }

  ghost function OffersIn(r: Roster, target: nat, fr: Frame): (offers: seq<Offer>)
    ensures |offers| == |SlotsIn(r, fr)|
    ensures forall i :: 0 <= i < |offers| ==> offers[i] == OfferOf(r, target, fr, SlotsIn(r, fr)[i])
  {
    Offers(r, target, fr, SlotsIn(r, fr))
  }

  /** A frame keeps what taking its offers in turn leaves. */
  lemma FrameTakesAll(r: Roster, target: nat, fr: Frame)
    ensures Found(r, target, fr) == TakeAll(target, OffersIn(r, target, fr), NOTHING)
  {
    IdsTakeAll(r, target, fr, fr.ids, NOTHING);
  }

  // ----- What a fold keeps -----

  // Offers from the last direct hit on; all of them, if there is none.
  function FromLastHit(offers: seq<Offer>): (at: nat)
    ensures at <= |offers|
    ensures (at < |offers| && offers[at].Hit?) || at == 0
    ensures forall i :: at < i < |offers| ==> !offers[i].Hit?
    ensures (forall i :: 0 <= i < |offers| ==> !offers[i].Hit?) || (at < |offers| && offers[at].Hit?)
  {
    if offers == [] then 0
    else if offers[|offers| - 1].Hit? then |offers| - 1
    else FromLastHit(offers[..|offers| - 1])
  }

  lemma TakeAllLast(target: nat, offers: seq<Offer>, best: Best)
    requires offers != []
    ensures TakeAll(target, offers, best)
            == Take(target, TakeAll(target, offers[..|offers| - 1], best), offers[|offers| - 1])
  {
    var n := |offers| - 1;
    assert offers == offers[..n] + [offers[n]];
    TakeAllConcat(target, offers[..n], [offers[n]], best);
    assert [offers[n]][1..] == [];
  }

  // Offers at `from` or later are worth no more than this.
  ghost predicate NoneBetter(offers: seq<Offer>, from: int, to: int, quality: real) {
    forall i :: from <= i < to && 0 <= i < |offers| && offers[i] != Nothing ==> offers[i].quality <= quality
  }

  /** The quality that a frame keeps is the greatest of the last direct hit's and those of all later candidates; with
      no such offer it is that of an empty search. */
  lemma {:induction false} KeptQuality(target: nat, offers: seq<Offer>)
    ensures var kept, at := TakeAll(target, offers, NOTHING), FromLastHit(offers);
            && NoneBetter(offers, at, |offers|, kept.quality)
            && (kept != NOTHING ==>
                  exists i :: at <= i < |offers| && offers[i] != Nothing && offers[i].quality == kept.quality)
    decreases |offers|
  {
    if offers != [] {
      var n := |offers| - 1;
      var front, last := offers[..n], offers[n];
      TakeAllLast(target, offers, NOTHING);
      KeptQuality(target, front);
      var before, kept := TakeAll(target, front, NOTHING), TakeAll(target, offers, NOTHING);
      hide TakeAll;
      if last.Hit? || (last.Find? && before.quality < last.quality) {
        assert offers[n].quality == kept.quality;
      } else if kept != NOTHING {
        var i :| FromLastHit(front) <= i < n && front[i] != Nothing && front[i].quality == kept.quality;
        assert offers[i] == front[i];
      }
      forall i | FromLastHit(offers) <= i < |offers| && offers[i] != Nothing ensures offers[i].quality <= kept.quality {
        if i < n { assert offers[i] == front[i]; }
      }
    }
  }

  /** So it is the best of the frame if and only if no candidate in front of the last direct hit is worth more. */
  lemma KeptIsBest(target: nat, offers: seq<Offer>)
    ensures var quality := TakeAll(target, offers, NOTHING).quality;
            NoneBetter(offers, 0, |offers|, quality) <==> NoneBetter(offers, 0, FromLastHit(offers), quality)
  {
    KeptQuality(target, offers);
    hide TakeAll, FromLastHit;
  }

  // No offer precedes a direct hit.
  ghost predicate HitsLead(offers: seq<Offer>) {
    forall a, b :: 0 <= a < b < |offers| && offers[b].Hit? ==> offers[a] == Nothing
  }

  lemma {:induction false} NothingTaken(target: nat, offers: seq<Offer>, best: Best)
    requires forall i :: 0 <= i < |offers| ==> offers[i] == Nothing
    ensures TakeAll(target, offers, best) == best
    decreases |offers|
  {
    if offers != [] {
      NothingTaken(target, offers[1..], best);
    }
  }

  /** If no offer precedes a direct hit and what is found below is fair, the frame is fair, whatever the qualities;
      what it finds, some candidate offered. */
  lemma {:induction false} FairFold(target: nat, offers: seq<Offer>)
    requires HitsLead(offers) && forall i :: 0 <= i < |offers| && offers[i].Find? ==> offers[i].fair
    ensures TakeAll(target, offers, NOTHING).fair
    decreases |offers|
  {
    if offers != [] {
      var n := |offers| - 1;
      TakeAllLast(target, offers, NOTHING);
      FairFold(target, offers[..n]);
      if offers[n].Hit? {
        NothingTaken(target, offers[..n], NOTHING);
      }
    }
  }

  lemma FoundFold(target: nat, offers: seq<Offer>)
    requires TakeAll(target, offers, NOTHING).found
    ensures exists i :: 0 <= i < |offers| && offers[i] != Nothing
  {
    if forall i :: 0 <= i < |offers| ==> offers[i] == Nothing {
      NothingTaken(target, offers, NOTHING);
    }
  }

  ghost predicate NotNegative(offers: seq<Offer>) {
    forall i :: 0 <= i < |offers| && offers[i] != Nothing ==> offers[i].quality >= 0.0
  }

  // Without negative qualities anything offered makes the frame find something.
  lemma {:induction false} OfferedIsFound(target: nat, offers: seq<Offer>)
    requires NotNegative(offers)
    ensures var kept := TakeAll(target, offers, NOTHING);
            && (kept.found <==> exists i :: 0 <= i < |offers| && offers[i] != Nothing)
            && (kept.found ==> kept.quality >= 0.0) && (!kept.found ==> kept == NOTHING)
            && (kept.found && (forall i :: 0 <= i < |offers| && offers[i].Find? ==> offers[i].path != []) ==>
                  kept.path != [])
    decreases |offers|
  {
    if offers != [] {
      var n := |offers| - 1;
      var front := offers[..n];
      TakeAllLast(target, offers, NOTHING);
      OfferedIsFound(target, front);
      var kept := TakeAll(target, offers, NOTHING);
      var before := TakeAll(target, front, NOTHING);
      hide TakeAll;
      if before.found {
        var i :| 0 <= i < |front| && front[i] != Nothing;
        assert offers[i] != Nothing;
      } else if offers[n] == Nothing {
        forall i | 0 <= i < |offers| ensures offers[i] == Nothing {
          if i < n { assert front[i] == offers[i]; }
        }
      } else {
        assert kept.found;
      }
    }
  }

  /** If no offer precedes a direct hit and no quality is negative, a frame keeps the best of all its offers. */
  lemma BestFold(target: nat, offers: seq<Offer>)
    requires HitsLead(offers) && NotNegative(offers)
    ensures NoneBetter(offers, 0, |offers|, TakeAll(target, offers, NOTHING).quality)
  {
    KeptQuality(target, offers);
    var at := FromLastHit(offers);
    assert at > 0 ==> at < |offers| && offers[at].Hit?;
    hide TakeAll, FromLastHit;
  }

  // ----- The condition on the roster -----

  /** Going into a candidate leads to the target, by the types, groups and translators alone. */
  ghost predicate Leads(r: Roster, target: nat, fr: Frame, c: Candidate)
    decreases Left(r, fr), 0
  {
    Open(r, fr, c) && (FormatOf(r, c).kind == target || (SubSmaller(r, fr, c); Reaches(r, target, Sub(r, fr, c))))
  }

  ghost predicate Reaches(r: Roster, target: nat, fr: Frame)
    decreases Left(r, fr), 1
  {
    exists c :: c in SlotsIn(r, fr) && Leads(r, target, fr, c)
  }

  // A candidate that leads to the target comes before a direct hit.
  ghost predicate LateHit(r: Roster, target: nat, fr: Frame, a: int, b: int) {
    && 0 <= a < b < |SlotsIn(r, fr)|
    && Leads(r, target, fr, SlotsIn(r, fr)[a]) && IsHit(r, target, fr, SlotsIn(r, fr)[b])
  }

  ghost predicate Late(r: Roster, target: nat, fr: Frame) {
    exists a, b :: LateHit(r, target, fr, a, b)
  }

  /** In this frame and in all frames below it, a format of the target type is offered only in front of every
      candidate that leads to the target. Qualities play no part in this. */
  ghost predicate HitsFirst(r: Roster, target: nat, fr: Frame)
    decreases Left(r, fr), 1
  {
    !Late(r, target, fr) && forall c :: c in SlotsIn(r, fr) ==> FirstBelow(r, target, fr, c)
  }

  ghost predicate FirstBelow(r: Roster, target: nat, fr: Frame, c: Candidate)
    decreases Left(r, fr), 0
  {
    Open(r, fr, c) && FormatOf(r, c).kind != target ==> (SubSmaller(r, fr, c); HitsFirst(r, target, Sub(r, fr, c)))
  }

  /** What is found is reached by the types. */
  lemma {:induction false} FoundReaches(r: Roster, target: nat, fr: Frame)
    ensures Found(r, target, fr).found ==> Reaches(r, target, fr)
    decreases Left(r, fr), 1
  {
    FrameTakesAll(r, target, fr);
    hide Found, OfferOf, Leads;
    if Found(r, target, fr).found {
      FoundFold(target, OffersIn(r, target, fr));
      var i :| 0 <= i < |OffersIn(r, target, fr)| && OffersIn(r, target, fr)[i] != Nothing;
      OfferLeads(r, target, fr, SlotsIn(r, fr)[i]);
    }
  }

  lemma {:induction false} OfferLeads(r: Roster, target: nat, fr: Frame, c: Candidate)
    ensures OfferOf(r, target, fr, c) != Nothing ==> Leads(r, target, fr, c)
    decreases Left(r, fr), 0
  {
    hide Found, Reaches;
    if Open(r, fr, c) && FormatOf(r, c).kind != target {
      SubSmaller(r, fr, c);
      FoundReaches(r, target, Sub(r, fr, c));
    }
  }

  ghost predicate NonNegative(r: Roster) {
    forall c :: Has(r, c) ==> Product(FormatOf(r, c)) >= 0.0
  }

  /** Without negative qualities, what is reached by the types is found. */
  lemma {:induction false} ReachedIsFound(r: Roster, target: nat, fr: Frame)
    requires NonNegative(r)
    ensures Found(r, target, fr).found <==> Reaches(r, target, fr)
    ensures Found(r, target, fr).found ==> Found(r, target, fr).quality >= 0.0 && Found(r, target, fr).path != []
    ensures !Found(r, target, fr).found ==> Found(r, target, fr) == NOTHING
    decreases Left(r, fr), 1
  {
    FoundReaches(r, target, fr);
    FrameTakesAll(r, target, fr);
    var offers := OffersIn(r, target, fr);
    hide Found, OfferOf, Leads;
    forall c | c in SlotsIn(r, fr)
      ensures OfferOf(r, target, fr, c) != Nothing <==> Leads(r, target, fr, c)
      ensures OfferOf(r, target, fr, c) != Nothing ==> OfferOf(r, target, fr, c).quality >= 0.0
      ensures OfferOf(r, target, fr, c).Find? ==> OfferOf(r, target, fr, c).path != []
    {
      LeadingIsOffered(r, target, fr, c);
    }
    OfferedIsFound(target, offers);
    if Reaches(r, target, fr) {
      var c :| c in SlotsIn(r, fr) && Leads(r, target, fr, c);
      var i :| 0 <= i < |SlotsIn(r, fr)| && SlotsIn(r, fr)[i] == c;
      assert offers[i] != Nothing;
    }
  }

  lemma TimesNonNegative(x: real, y: real)
    requires x >= 0.0 && y >= 0.0
    ensures x * y >= 0.0
  {
  }

  lemma {:induction false} LeadingIsOffered(r: Roster, target: nat, fr: Frame, c: Candidate)
    requires NonNegative(r)
    ensures OfferOf(r, target, fr, c) != Nothing <==> Leads(r, target, fr, c)
    ensures OfferOf(r, target, fr, c) != Nothing ==> OfferOf(r, target, fr, c).quality >= 0.0
    ensures OfferOf(r, target, fr, c).Find? ==> OfferOf(r, target, fr, c).path != []
    decreases Left(r, fr), 0
  {
    hide Found, Reaches, Product;
    if Open(r, fr, c) && FormatOf(r, c).kind != target {
      SubSmaller(r, fr, c);
      ReachedIsFound(r, target, Sub(r, fr, c));
      if Found(r, target, Sub(r, fr, c)).found {
        TimesNonNegative(Found(r, target, Sub(r, fr, c)).quality, Product(FormatOf(r, c)));
      }
    }
  }

  // ----- A path that is a chain of translations -----

  lemma NotLateHitsLead(r: Roster, target: nat, fr: Frame)
    requires !Late(r, target, fr)
    ensures HitsLead(OffersIn(r, target, fr))
  {
    var offers := OffersIn(r, target, fr);
    hide Found, OfferOf, Leads, IsHit;
    forall a, b | 0 <= a < b < |offers| && offers[b].Hit? ensures offers[a] == Nothing {
      OfferLeads(r, target, fr, SlotsIn(r, fr)[a]);
      OnlyHitsHit(r, target, fr, SlotsIn(r, fr)[b]);
      assert !LateHit(r, target, fr, a, b);
    }
  }

  /** On a roster whose hits come first, every frame is fair, whatever the qualities. */
  lemma {:induction false} HitsFirstIsFair(r: Roster, target: nat, fr: Frame)
    requires HitsFirst(r, target, fr)
    ensures Found(r, target, fr).fair
    decreases Left(r, fr), 1
  {
    FrameTakesAll(r, target, fr);
    var offers := OffersIn(r, target, fr);
    hide Found, OfferOf, Leads, FirstBelow;
    NotLateHitsLead(r, target, fr);
    forall i | 0 <= i < |offers| ensures offers[i].Find? ==> offers[i].fair {
      FairBelow(r, target, fr, SlotsIn(r, fr)[i]);
    }
    FairFold(target, offers);
  }

  lemma {:induction false} FairBelow(r: Roster, target: nat, fr: Frame, c: Candidate)
    requires FirstBelow(r, target, fr, c)
    ensures OfferOf(r, target, fr, c).Find? ==> OfferOf(r, target, fr, c).fair
    decreases Left(r, fr), 0
  {
    hide Found, HitsFirst;
    if Open(r, fr, c) && FormatOf(r, c).kind != target {
      SubSmaller(r, fr, c);
      HitsFirstIsFair(r, target, Sub(r, fr, c));
    }
  }

  // ----- Routes and what they are worth -----

  function KindsOf(r: Roster, route: seq<Candidate>): (kinds: seq<nat>)
    requires forall i :: 0 <= i < |route| ==> Has(r, route[i])
    ensures |kinds| == |route| && forall i :: 0 <= i < |kinds| ==> kinds[i] == FormatOf(r, route[i]).kind
  {
    seq(|route|, i requires 0 <= i < |route| => FormatOf(r, route[i]).kind)
  }

  /** A chain of translations from a type, all in one group, the first by a translator of `ids`. */
  ghost predicate Linked(r: Roster, kind: nat, group: nat, ids: seq<int>, route: seq<Candidate>)
    decreases |route|
  {
    route != [] ==>
      && route[0].id in ids && Link(r, route[0].id, route[0].j, kind, group)
      && Linked(r, r.outputs[route[0].id][route[0].j].kind, group, r.all, route[1..])
  }

  // Which candidates a frame has.
  lemma {:induction false} SlotsOfAre(r: Roster, id: int, j: nat, c: Candidate)
    requires id in r.outputs && j <= |r.outputs[id]|
    ensures c in SlotsOf(r, id, j) <==> c.id == id && j <= c.j < |r.outputs[id]|
    decreases |r.outputs[id]| - j
  {
    if j < |r.outputs[id]| {
      SlotsOfAre(r, id, j + 1, c);
    }
  }

  lemma {:induction false} SlotsAre(r: Roster, kind: nat, group: nat, ids: seq<int>, c: Candidate)
    ensures c in Slots(r, kind, ids) && FormatOf(r, c).group == group 
       <==> c.id in ids && Link(r, c.id, c.j, kind, group)
    decreases |ids|
  {
    if ids != [] {
      SlotsAre(r, kind, group, ids[1..], c);
      var first := if Accepts(r, ids[0], kind) && ids[0] in r.outputs then SlotsOf(r, ids[0], 0) else [];
      assert Slots(r, kind, ids) == first + Slots(r, kind, ids[1..]);
      assert c.id in ids <==> c.id == ids[0] || c.id in ids[1..];
      if ids[0] in r.outputs { SlotsOfAre(r, ids[0], 0, c); }
      hide SlotsOf, Slots;
    }
  }

  /** The qualities and capabilities of a route, multiplied. */
  function Worth(r: Roster, route: seq<Candidate>): real
    requires forall i :: 0 <= i < |route| ==> Has(r, route[i])
  {
    if route == [] then 1.0
    else
      assert Has(r, route[0]);
      var f := r.outputs[route[0].id][route[0].j];
      Worth(r, route[1..]) * (f.quality * f.capability)
  }

  ghost predicate AllHas(r: Roster, route: seq<Candidate>) {
    forall i :: 0 <= i < |route| ==> Has(r, route[i])
  }

  ghost predicate NoRepeat(kinds: seq<nat>) {
    forall i, j :: 0 <= i < j < |kinds| ==> kinds[i] != kinds[j]
  }

  /** A route from the input type to the target that enters no type twice, and not the input type again. */
  ghost predicate SimpleRoute(r: Roster, target: nat, kind: nat, group: nat, ids: seq<int>, route: seq<Candidate>) {
    && route != [] && AllHas(r, route) && Linked(r, kind, group, ids, route)
    && FormatOf(r, route[|route| - 1]).kind == target
    && NoRepeat([kind] + KindsOf(r, route))
  }

  /** The same route as the search walks it, frame by frame. */
  ghost predicate Walks(r: Roster, target: nat, fr: Frame, route: seq<Candidate>)
    decreases |route|
  {
    && route != [] && route[0] in SlotsIn(r, fr) && Open(r, fr, route[0])
    && if |route| == 1 then FormatOf(r, route[0]).kind == target
       else FormatOf(r, route[0]).kind != target && Walks(r, target, Sub(r, fr, route[0]), route[1..])
  }

  ghost predicate Avoids(kinds: seq<nat>, seen: seq<nat>) {
    forall k :: k in kinds ==> k !in seen
  }

  lemma NoRepeatFirst(k: nat, kinds: seq<nat>)
    ensures NoRepeat([k] + kinds) <==> NoRepeat(kinds) && k !in kinds
  {
    var all := [k] + kinds;
    if NoRepeat(all) {
      forall i, j | 0 <= i < j < |kinds| ensures kinds[i] != kinds[j] {
        assert all[i + 1] == kinds[i] && all[j + 1] == kinds[j];
      }
      forall i | 0 <= i < |kinds| ensures kinds[i] != k {
        assert all[0] != all[i + 1];
      }
    }
  }

  lemma KindsFirst(r: Roster, route: seq<Candidate>)
    requires route != [] && AllHas(r, route)
    ensures AllHas(r, route[1..])
    ensures KindsOf(r, route) == [FormatOf(r, route[0]).kind] + KindsOf(r, route[1..])
  {
  }

  // One step of "no type twice", on types alone.
  lemma KindsStep(k0: nat, k1: nat, kinds: seq<nat>, seen: seq<nat>)
    ensures NoRepeat([k0] + ([k1] + kinds)) && Avoids([k1] + kinds, seen)
       <==> k1 != k0 && k1 !in seen && NoRepeat([k1] + kinds) && Avoids(kinds, [k0] + seen)
  {
    NoRepeatFirst(k0, [k1] + kinds);
    hide NoRepeat;
    assert forall k :: k in [k1] + kinds <==> k == k1 || k in kinds;
    assert forall k :: k in [k0] + seen <==> k == k0 || k in seen;
  }

  ghost predicate SimpleFrom(r: Roster, target: nat, fr: Frame, route: seq<Candidate>) {
    SimpleRoute(r, target, fr.kind, fr.group, fr.ids, route) && Avoids(KindsOf(r, route), fr.seen)
  }

  lemma SimpleOne(r: Roster, target: nat, fr: Frame, c: Candidate)
    ensures SimpleFrom(r, target, fr, [c]) <==> c in SlotsIn(r, fr) && IsHit(r, target, fr, c)
  {
    hide Slots;
    SlotsAre(r, fr.kind, fr.group, fr.ids, c);
    assert [c][1..] == [];
    if Has(r, c) {
      var k := FormatOf(r, c).kind;
      assert AllHas(r, [c]) && KindsOf(r, [c]) == [k];
      NoRepeatFirst(fr.kind, [k]);
      assert Linked(r, k, fr.group, r.all, []);
      assert Linked(r, fr.kind, fr.group, fr.ids, [c]) <==> c in SlotsIn(r, fr) && FormatOf(r, c).group == fr.group;
    } else {
      assert [c][0] == c;
    }
  }

  lemma SimpleStep(r: Roster, target: nat, fr: Frame, c: Candidate, rest: seq<Candidate>)
    requires rest != [] && c in SlotsIn(r, fr)
    ensures SimpleFrom(r, target, fr, [c] + rest)
       <==> Open(r, fr, c) && FormatOf(r, c).kind != target && SimpleFrom(r, target, Sub(r, fr, c), rest)
  {
    hide Slots, NoRepeat, Avoids;
    SlotsAre(r, fr.kind, fr.group, fr.ids, c);
    var route := [c] + rest;
    assert route[1..] == rest && route[|route| - 1] == rest[|rest| - 1];
    assert AllHas(r, route) <==> AllHas(r, rest) by {
      if AllHas(r, route) { KindsFirst(r, route); }
    }
    if AllHas(r, rest) {
      KindsFirst(r, route);
      var f, below := FormatOf(r, c), KindsOf(r, rest);
      KindsStep(fr.kind, f.kind, below, fr.seen);
      NoRepeatFirst(f.kind, below);
      assert below[|below| - 1] in below;
    }
  }

  /** A frame walks exactly the simple routes that avoid the types it has seen. */
  lemma {:induction false} WalksAreSimple(r: Roster, target: nat, fr: Frame, route: seq<Candidate>)
    ensures Walks(r, target, fr, route) <==> SimpleFrom(r, target, fr, route)
    decreases |route|
  {
    hide Slots, NoRepeat, Avoids;
    if route != [] {
      var c, rest := route[0], route[1..];
      assert route == [c] + rest;
      SlotsAre(r, fr.kind, fr.group, fr.ids, c);
      if rest == [] {
        assert route == [c];
        SimpleOne(r, target, fr, c);
      } else if c in SlotsIn(r, fr) {
        SimpleStep(r, target, fr, c, rest);
        hide SimpleFrom;
        WalksAreSimple(r, target, Sub(r, fr, c), rest);
      }
    }
  }

  lemma TimesMonotone(x: real, y: real, z: real)
    requires x <= y && z >= 0.0
    ensures x * z <= y * z
  {
  }

  /** Whatever a candidate offers, its frame finds something worth at least as much. */
  lemma FrameOffers(r: Roster, target: nat, fr: Frame, c: Candidate)
    requires NonNegative(r) && HitsFirst(r, target, fr) && c in SlotsIn(r, fr)
    requires OfferOf(r, target, fr, c) != Nothing
    ensures Found(r, target, fr).found && OfferOf(r, target, fr, c).quality <= Found(r, target, fr).quality
  {
    FrameTakesAll(r, target, fr);
    var offers := OffersIn(r, target, fr);
    assert !Late(r, target, fr);
    hide Found, OfferOf, Leads, HitsFirst, Late;
    NotLateHitsLead(r, target, fr);
    forall i | 0 <= i < |offers| && offers[i] != Nothing ensures offers[i].quality >= 0.0 {
      LeadingIsOffered(r, target, fr, SlotsIn(r, fr)[i]);
    }
    assert NotNegative(offers);
    BestFold(target, offers);
    OfferedIsFound(target, offers);
    var i :| 0 <= i < |SlotsIn(r, fr)| && SlotsIn(r, fr)[i] == c;
    assert offers[i] == OfferOf(r, target, fr, c);
  }

  // The first candidate of a walk is offered at no less than the walk is worth.
  lemma {:induction false} WalkOffered(r: Roster, target: nat, fr: Frame, route: seq<Candidate>)
    requires NonNegative(r) && HitsFirst(r, target, fr) && Walks(r, target, fr, route) && AllHas(r, route)
    ensures var offer := OfferOf(r, target, fr, route[0]);
            offer != Nothing && Worth(r, route) <= offer.quality
    decreases |route|, 0
  {
    var c, rest := route[0], route[1..];
    hide Found, Product;
    if |route| == 1 {
      assert rest == [] && Worth(r, rest) == 1.0;
    } else {
      SubSmaller(r, fr, c);
      assert FirstBelow(r, target, fr, c);
      hide HitsFirst;
      var sub := Sub(r, fr, c);
      WalkOffered(r, target, sub, rest);
      FrameOffers(r, target, sub, rest[0]);
      TimesMonotone(Worth(r, rest), Found(r, target, sub).quality, Product(FormatOf(r, c)));
    }
  }

  /** With hits first and no negative quality, what a frame finds is worth at least as much as any route it could
      walk. */
  lemma {:induction false} WorthAllWalks(r: Roster, target: nat, fr: Frame, route: seq<Candidate>)
    requires NonNegative(r) && HitsFirst(r, target, fr) && Walks(r, target, fr, route) && AllHas(r, route)
    ensures Found(r, target, fr).found && Worth(r, route) <= Found(r, target, fr).quality
    decreases |route|
  {
    var c, rest := route[0], route[1..];
    var offer := OfferOf(r, target, fr, c);
    hide Found, HitsFirst, Leads, OfferOf;
    WalkOffered(r, target, fr, route);
    FrameOffers(r, target, fr, c);
  }

  lemma OnlyHitsHit(r: Roster, target: nat, fr: Frame, c: Candidate)
    ensures OfferOf(r, target, fr, c).Hit? <==> IsHit(r, target, fr, c)
  {
    hide Found;
  }

  // The offer that a fair find was taken from.
  ghost predicate Explains(target: nat, offer: Offer, best: Best) {
    match offer
    case Nothing => false
    case Hit(quality) => best.path == [target] && best.quality == quality
    case Find(path, quality, fair) => best.path == path && best.quality == quality && fair
  }

  lemma {:induction false} FairFrom(target: nat, offers: seq<Offer>)
    requires var kept := TakeAll(target, offers, NOTHING); kept.found && kept.fair
    ensures exists i :: 0 <= i < |offers| && Explains(target, offers[i], TakeAll(target, offers, NOTHING))
    decreases |offers|
  {
    if offers != [] {
      var n := |offers| - 1;
      TakeAllLast(target, offers, NOTHING);
      var before, kept := TakeAll(target, offers[..n], NOTHING), TakeAll(target, offers, NOTHING);
      if kept == before {
        FairFrom(target, offers[..n]);
        var i :| 0 <= i < n && Explains(target, offers[..n][i], before);
        assert Explains(target, offers[i], kept);
      } else {
        assert Explains(target, offers[n], kept);
      }
    }
  }

  /** On any roster, a fair find is a walk of its frame, and its quality is what that walk is worth. */
  lemma {:induction false} FairFindIsWalk(r: Roster, target: nat, fr: Frame) returns (route: seq<Candidate>)
    requires Found(r, target, fr).found && Found(r, target, fr).fair
    ensures Walks(r, target, fr, route) && AllHas(r, route)
    ensures KindsOf(r, route) == Found(r, target, fr).path && Worth(r, route) == Found(r, target, fr).quality
    decreases Left(r, fr), 1
  {
    FrameTakesAll(r, target, fr);
    var offers := OffersIn(r, target, fr);
    FairFrom(target, offers);
    var i :| 0 <= i < |offers| && Explains(target, offers[i], Found(r, target, fr));
    route := FairOfferIsWalk(r, target, fr, SlotsIn(r, fr)[i], Found(r, target, fr));
  }

  lemma {:induction false} FairOfferIsWalk(r: Roster, target: nat, fr: Frame, c: Candidate, best: Best)
    returns (route: seq<Candidate>)
    requires c in SlotsIn(r, fr) && Explains(target, OfferOf(r, target, fr, c), best)
    ensures Walks(r, target, fr, route) && AllHas(r, route)
    ensures KindsOf(r, route) == best.path && Worth(r, route) == best.quality
    decreases Left(r, fr), 0
  {
    var f := FormatOf(r, c);
    if f.kind == target {
      route := [c];
      assert route[1..] == [] && KindsOf(r, route) == [target];
    } else {
      hide Found;
      SubSmaller(r, fr, c);
      var below := FairFindIsWalk(r, target, Sub(r, fr, c));
      route := [c] + below;
      assert route[1..] == below;
      assert below != [] && |route| > 1;
    }
  }

  /** The search finds a path if there is a route from the input type to the target; its path is a simple route, and it
      is worth at least as much as every simple route. */
  ghost predicate FindIsBest(r: Roster, target: nat, kind: nat, group: nat, ids: seq<int>) {
    var b := OverIds(r, target, kind, group, [], ids, NOTHING);
    && (b.found <==> exists route :: SimpleRoute(r, target, kind, group, ids, route))
    && (b.found ==> exists route :: SimpleRoute(r, target, kind, group, ids, route)
                                    && KindsOf(r, route) == b.path && Worth(r, route) == b.quality)
    && (forall route :: SimpleRoute(r, target, kind, group, ids, route) ==> Worth(r, route) <= b.quality)
  }

  /** On a roster whose hits come first, and without negative qualities, the search finds the best path. */
  lemma FindsTheBest(r: Roster, target: nat, kind: nat, group: nat, ids: seq<int>)
    requires NonNegative(r) && HitsFirst(r, target, Frame(kind, group, [], ids))
    ensures FindIsBest(r, target, kind, group, ids)
  {
    var fr := Frame(kind, group, [], ids);
    HitsFirstIsFair(r, target, fr);
    if Found(r, target, fr).found {
      var route := FairFindIsWalk(r, target, fr);
      WalksAreSimple(r, target, fr, route);
    }
    forall route | SimpleRoute(r, target, kind, group, ids, route)
      ensures Found(r, target, fr).found && Worth(r, route) <= Found(r, target, fr).quality
    {
      WalksAreSimple(r, target, fr, route);
      WorthAllWalks(r, target, fr, route);
    }
    hide OverIds, HitsFirst, SimpleRoute;
  }

  // ----- Exactly the rosters that never break the search -----

  /** Two rosters that differ in qualities and capabilities only. */
  ghost predicate SameShape(r: Roster, q: Roster) {
    && q.all == r.all && q.inputs == r.inputs && q.outputs.Keys == r.outputs.Keys
    && (forall id :: id in r.outputs ==> |q.outputs[id]| == |r.outputs[id]|)
    && (forall c :: Has(r, c) ==>
          FormatOf(q, c).kind == FormatOf(r, c).kind && FormatOf(q, c).group == FormatOf(r, c).group)
  }

  lemma {:induction false} SlotsOfSame(r: Roster, q: Roster, id: int, j: nat)
    requires SameShape(r, q) && id in r.outputs && j <= |r.outputs[id]|
    ensures SlotsOf(r, id, j) == SlotsOf(q, id, j)
    decreases |r.outputs[id]| - j
  {
    if j < |r.outputs[id]| {
      SlotsOfSame(r, q, id, j + 1);
    }
  }

  lemma {:induction false} SlotsSame(r: Roster, q: Roster, kind: nat, ids: seq<int>)
    requires SameShape(r, q)
    ensures Slots(r, kind, ids) == Slots(q, kind, ids)
  {
    if ids != [] {
      if ids[0] in r.outputs {
        SlotsOfSame(r, q, ids[0], 0);
      }
      SlotsSame(r, q, kind, ids[1..]);
    }
  }

  lemma FrameSame(r: Roster, q: Roster, target: nat, fr: Frame, c: Candidate)
    requires SameShape(r, q)
    ensures Has(r, c) <==> Has(q, c)
    ensures Open(r, fr, c) <==> Open(q, fr, c)
    ensures IsHit(r, target, fr, c) <==> IsHit(q, target, fr, c)
    ensures Has(r, c) ==> Sub(r, fr, c) == Sub(q, fr, c)
  {
  }

  lemma {:induction false} LeadsSame(r: Roster, q: Roster, target: nat, fr: Frame, c: Candidate)
    requires SameShape(r, q)
    ensures Leads(r, target, fr, c) <==> Leads(q, target, fr, c)
    decreases Left(r, fr), 0
  {
    FrameSame(r, q, target, fr, c);
    hide SameShape, Reaches;
    if Open(r, fr, c) && FormatOf(r, c).kind != target {
      SubSmaller(r, fr, c);
      ReachesSame(r, q, target, Sub(r, fr, c));
    }
  }

  lemma {:induction false} ReachesSame(r: Roster, q: Roster, target: nat, fr: Frame)
    requires SameShape(r, q)
    ensures Reaches(r, target, fr) <==> Reaches(q, target, fr)
    decreases Left(r, fr), 1
  {
    SlotsSame(r, q, fr.kind, fr.ids);
    hide SameShape, Leads, Slots;
    forall c ensures Leads(r, target, fr, c) <==> Leads(q, target, fr, c) {
      LeadsSame(r, q, target, fr, c);
    }
  }

  lemma LateSame(r: Roster, q: Roster, target: nat, fr: Frame)
    requires SameShape(r, q)
    ensures forall a, b :: LateHit(r, target, fr, a, b) <==> LateHit(q, target, fr, a, b)
    ensures Late(r, target, fr) <==> Late(q, target, fr)
  {
    SlotsSame(r, q, fr.kind, fr.ids);
    hide SameShape, Leads, Slots, IsHit;
    forall a, b ensures LateHit(r, target, fr, a, b) <==> LateHit(q, target, fr, a, b) {
      if 0 <= a < b < |SlotsIn(r, fr)| {
        LeadsSame(r, q, target, fr, SlotsIn(r, fr)[a]);
        FrameSame(r, q, target, fr, SlotsIn(r, fr)[b]);
      }
    }
  }

  lemma {:induction false} HitsFirstSame(r: Roster, q: Roster, target: nat, fr: Frame)
    requires SameShape(r, q)
    ensures HitsFirst(r, target, fr) ==> HitsFirst(q, target, fr)
    decreases Left(r, fr), 1
  {
    SlotsSame(r, q, fr.kind, fr.ids);
    LateSame(r, q, target, fr);
    hide SameShape, Late, Slots, FirstBelow;
    if HitsFirst(r, target, fr) {
      forall c | c in SlotsIn(q, fr) ensures FirstBelow(q, target, fr, c) {
        FirstBelowSame(r, q, target, fr, c);
      }
    }
  }

  lemma {:induction false} FirstBelowSame(r: Roster, q: Roster, target: nat, fr: Frame, c: Candidate)
    requires SameShape(r, q)
    ensures FirstBelow(r, target, fr, c) ==> FirstBelow(q, target, fr, c)
    decreases Left(r, fr), 0
  {
    FrameSame(r, q, target, fr, c);
    hide HitsFirst;
    if Open(r, fr, c) && FormatOf(r, c).kind != target {
      SubSmaller(r, fr, c);
      SubSmaller(q, fr, c);
      HitsFirstSame(r, q, target, Sub(r, fr, c));
    }
  }

  // A chain of candidates that the search goes into, from a frame on, and the frame it ends in.
  ghost predicate Chain(r: Roster, target: nat, fr: Frame, chain: seq<Candidate>)
    decreases |chain|
  {
    chain != [] ==>
      && chain[0] in SlotsIn(r, fr) && Open(r, fr, chain[0]) && FormatOf(r, chain[0]).kind != target
      && Chain(r, target, Sub(r, fr, chain[0]), chain[1..])
  }

  ghost function EndOf(r: Roster, target: nat, fr: Frame, chain: seq<Candidate>): Frame
    requires Chain(r, target, fr, chain)
    decreases |chain|
  {
    if chain == [] then fr else EndOf(r, target, Sub(r, fr, chain[0]), chain[1..])
  }

  ghost predicate LateAt(r: Roster, target: nat, fr: Frame, chain: seq<Candidate>) {
    Chain(r, target, fr, chain) && Late(r, target, EndOf(r, target, fr, chain))
  }

  lemma LateAtStep(r: Roster, target: nat, fr: Frame, c: Candidate, rest: seq<Candidate>)
    ensures LateAt(r, target, fr, [c] + rest)
            <==>
            (c in SlotsIn(r, fr) && Open(r, fr, c) && FormatOf(r, c).kind != target
             && LateAt(r, target, Sub(r, fr, c), rest))
  {
    hide Late, SlotsIn, Open;
    assert ([c] + rest)[1..] == rest;
  }

  lemma {:induction false} LateSomewhere(r: Roster, target: nat, fr: Frame) returns (chain: seq<Candidate>)
    requires !HitsFirst(r, target, fr)
    ensures LateAt(r, target, fr, chain)
    decreases Left(r, fr), 1
  {
    hide Late;
    if Late(r, target, fr) {
      chain := [];
    } else {
      var c :| c in SlotsIn(r, fr) && !FirstBelow(r, target, fr, c);
      SubSmaller(r, fr, c);
      var rest := LateSomewhere(r, target, Sub(r, fr, c));
      chain := [c] + rest;
      LateAtStep(r, target, fr, c, rest);
    }
  }

  ghost predicate Shortest(r: Roster, target: nat, fr: Frame, chain: seq<Candidate>) {
    LateAt(r, target, fr, chain) && forall other :: LateAt(r, target, fr, other) ==> |chain| <= |other|
  }

  lemma {:induction false} ShortestExists(r: Roster, target: nat, fr: Frame, some: seq<Candidate>)
    returns (chain: seq<Candidate>)
    requires LateAt(r, target, fr, some)
    ensures Shortest(r, target, fr, chain)
    decreases |some|
  {
    hide LateAt;
    if other :| LateAt(r, target, fr, other) && |other| < |some| {
      chain := ShortestExists(r, target, fr, other);
    } else {
      chain := some;
    }
  }

  /** Along a shortest chain no frame but the last is late, and no frame offers a later candidate of the chain. */
  ghost predicate Tight(r: Roster, target: nat, fr: Frame, chain: seq<Candidate>)
    requires Chain(r, target, fr, chain)
    decreases |chain|
  {
    chain != [] ==>
      && !Late(r, target, fr)
      && (forall k :: 1 <= k < |chain| ==> chain[k] !in SlotsIn(r, fr))
      && Tight(r, target, Sub(r, fr, chain[0]), chain[1..])
  }

  // The first frame has seen no more types than the second.
  ghost predicate Wider(a: Frame, b: Frame) {
    a.kind == b.kind && a.group == b.group && a.ids == b.ids && forall k :: k in a.seen ==> k in b.seen
  }

  lemma WiderSub(r: Roster, a: Frame, b: Frame, c: Candidate)
    requires Wider(a, b)
    ensures Open(r, b, c) ==> Open(r, a, c)
    ensures Has(r, c) ==> Wider(Sub(r, a, c), Sub(r, b, c))
  {
    assert forall k :: k in [a.kind] + a.seen ==> k in [b.kind] + b.seen;
  }

  lemma {:induction false} WiderLeads(r: Roster, target: nat, a: Frame, b: Frame, c: Candidate)
    requires Wider(a, b) && Leads(r, target, b, c)
    ensures Leads(r, target, a, c)
    decreases Left(r, b), 0
  {
    WiderSub(r, a, b, c);
    hide Reaches, Wider;
    if FormatOf(r, c).kind != target {
      SubSmaller(r, b, c);
      WiderReaches(r, target, Sub(r, a, c), Sub(r, b, c));
    }
  }

  lemma {:induction false} WiderReaches(r: Roster, target: nat, a: Frame, b: Frame)
    requires Wider(a, b) && Reaches(r, target, b)
    ensures Reaches(r, target, a)
    decreases Left(r, b), 1
  {
    hide Leads;
    var c :| c in SlotsIn(r, b) && Leads(r, target, b, c);
    WiderLeads(r, target, a, b, c);
  }

  lemma WiderLate(r: Roster, target: nat, a: Frame, b: Frame)
    requires Wider(a, b) && Late(r, target, b)
    ensures Late(r, target, a)
  {
    hide Leads;
    var x, y :| LateHit(r, target, b, x, y);
    WiderLeads(r, target, a, b, SlotsIn(r, b)[x]);
    WiderSub(r, a, b, SlotsIn(r, b)[y]);
    assert LateHit(r, target, a, x, y);
  }

  lemma {:induction false} WiderLateAt(r: Roster, target: nat, a: Frame, b: Frame, chain: seq<Candidate>)
    requires Wider(a, b) && LateAt(r, target, b, chain)
    ensures LateAt(r, target, a, chain)
    decreases |chain|
  {
    if chain == [] {
      WiderLate(r, target, a, b);
    } else {
      var c, rest := chain[0], chain[1..];
      assert chain == [c] + rest;
      WiderSub(r, a, b, c);
      assert c in SlotsIn(r, a);
      hide LateAt, Wider, Open;
      LateAtStep(r, target, b, c, rest);
      LateAtStep(r, target, a, c, rest);
      WiderLateAt(r, target, Sub(r, a, c), Sub(r, b, c), rest);
    }
  }

  // The second frame is below the first one.
  ghost predicate Below(a: Frame, b: Frame) {
    b.group == a.group && a.kind in b.seen && forall k :: k in a.seen ==> k in b.seen
  }

  /** A later candidate of a chain that an earlier frame offers is a way to leave out what is between. */
  lemma {:induction false} Shortcut(r: Roster, target: nat, fr: Frame, below: Frame, chain: seq<Candidate>, k: nat)
    requires Below(fr, below) && LateAt(r, target, below, chain) && k < |chain| && chain[k] in SlotsIn(r, fr)
    ensures LateAt(r, target, fr, chain[k..])
    decreases k
  {
    var c, rest := chain[0], chain[1..];
    assert chain == [c] + rest;
    LateAtStep(r, target, below, c, rest);
    if k == 0 {
      assert chain[0..] == chain;
      assert Open(r, fr, c) && Wider(Sub(r, fr, c), Sub(r, below, c));
      hide LateAt, Open, Wider;
      WiderLateAt(r, target, Sub(r, fr, c), Sub(r, below, c), rest);
      LateAtStep(r, target, fr, c, rest);
    } else {
      assert chain[k..] == rest[k - 1..] && chain[k] == rest[k - 1];
      assert Below(fr, Sub(r, below, c));
      hide LateAt, Open, Below;
      Shortcut(r, target, fr, Sub(r, below, c), rest, k - 1);
    }
  }

  lemma {:induction false} ShortestIsTight(r: Roster, target: nat, fr: Frame, chain: seq<Candidate>)
    requires Shortest(r, target, fr, chain)
    ensures Chain(r, target, fr, chain) && Tight(r, target, fr, chain)
    decreases |chain|
  {
    if chain != [] {
      var c, rest := chain[0], chain[1..];
      assert chain == [c] + rest;
      LateAtStep(r, target, fr, c, rest);
      var sub := Sub(r, fr, c);
      assert Late(r, target, fr) ==> LateAt(r, target, fr, []);
      assert Below(fr, sub);
      hide LateAt, Below, Open, Late;
      forall k | 1 <= k < |chain| ensures chain[k] !in SlotsIn(r, fr) {
        if chain[k] in SlotsIn(r, fr) {
          assert chain[k] == rest[k - 1];
          Shortcut(r, target, fr, sub, rest, k - 1);
        }
      }
      forall other | LateAt(r, target, sub, other) ensures |rest| <= |other| {
        LateAtStep(r, target, fr, c, other);
      }
      ShortestIsTight(r, target, sub, rest);
    }
  }

  // ----- Qualities that break the search -----

  function Weight(heavy: set<Candidate>, hit: Candidate, c: Candidate): real {
    if c in heavy then 2.0 else if c == hit then 1.0 else 0.0
  }

  /** The roster with these qualities: 2 for the heavy candidates, 1 for one direct hit, and 0 for all others. */
  ghost function Weigh(r: Roster, heavy: set<Candidate>, hit: Candidate): Roster {
    r.(outputs := map id | id in r.outputs ::
         seq(|r.outputs[id]|, j requires 0 <= j < |r.outputs[id]| =>
               r.outputs[id][j].(quality := Weight(heavy, hit, Candidate(id, j)), capability := 1.0)))
  }

  ghost predicate HasWeights(q: Roster, heavy: set<Candidate>, hit: Candidate) {
    forall c :: Has(q, c) ==> Product(FormatOf(q, c)) == Weight(heavy, hit, c)
  }

  lemma Weighed(r: Roster, heavy: set<Candidate>, hit: Candidate)
    ensures SameShape(r, Weigh(r, heavy, hit)) && NonNegative(Weigh(r, heavy, hit))
    ensures HasWeights(Weigh(r, heavy, hit), heavy, hit)
  {
  }

  lemma {:induction false} Unbeaten(target: nat, offers: seq<Offer>, best: Best)
    requires forall i :: 0 <= i < |offers| ==> !offers[i].Hit?
    requires NoneBetter(offers, 0, |offers|, best.quality)
    ensures TakeAll(target, offers, best) == best
    decreases |offers|
  {
    if offers != [] {
      assert offers[0] != Nothing ==> offers[0].quality <= best.quality;
      assert forall i :: 0 <= i < |offers[1..]| ==> offers[1..][i] == offers[i + 1];
      Unbeaten(target, offers[1..], best);
    }
  }

  lemma {:induction false} NeverAbove(target: nat, offers: seq<Offer>, quality: real)
    requires NoneBetter(offers, 0, |offers|, quality) && -1.0 <= quality
    ensures TakeAll(target, offers, NOTHING).quality <= quality
    decreases |offers|
  {
    if offers != [] {
      var n := |offers| - 1;
      TakeAllLast(target, offers, NOTHING);
      NeverAbove(target, offers[..n], quality);
    }
  }

  // A direct hit behind an earlier find, and nothing better behind it.
  lemma UnfairFold(target: nat, offers: seq<Offer>, a: nat, b: nat)
    requires a < b < |offers| && offers[a] != Nothing && offers[b].Hit? && NotNegative(offers)
    requires forall i :: 0 <= i < |offers| && offers[i].Find? ==> offers[i].path != []
    requires forall i :: b < i < |offers| ==> !offers[i].Hit?
    requires NoneBetter(offers, b + 1, |offers|, offers[b].quality)
    ensures var kept := TakeAll(target, offers, NOTHING);
            kept.found && !kept.fair && kept.quality == offers[b].quality
  {
    var front, back := offers[..b], offers[b + 1..];
    assert offers == front + ([offers[b]] + back);
    TakeAllConcat(target, front, [offers[b]] + back, NOTHING);
    assert ([offers[b]] + back)[1..] == back;
    assert front[a] == offers[a];
    OfferedIsFound(target, front);
    var before := TakeAll(target, front, NOTHING);
    var hit := Take(target, before, offers[b]);
    hide TakeAll;
    forall i | 0 <= i < |back| ensures back[i] == offers[b + 1 + i] && !back[i].Hit? {}
    Unbeaten(target, back, hit);
  }

  // An offer better than all others that no direct hit follows.
  lemma AdoptFold(target: nat, offers: seq<Offer>, at: nat)
    requires at < |offers| && offers[at].Find? && offers[at].quality > 1.0
    requires NoneBetter(offers, 0, at, 1.0)
    requires forall i :: at < i < |offers| ==> !offers[i].Hit?
    requires NoneBetter(offers, at + 1, |offers|, offers[at].quality)
    ensures TakeAll(target, offers, NOTHING) == Best(true, offers[at].path, offers[at].quality, offers[at].fair)
  {
    var front, back := offers[..at], offers[at + 1..];
    assert offers == front + ([offers[at]] + back);
    TakeAllConcat(target, front, [offers[at]] + back, NOTHING);
    assert ([offers[at]] + back)[1..] == back;
    NeverAbove(target, front, 1.0);
    hide TakeAll;
    forall i | 0 <= i < |back| ensures back[i] == offers[at + 1 + i] && !back[i].Hit? {}
    Unbeaten(target, back, Best(true, offers[at].path, offers[at].quality, offers[at].fair));
  }

  // The last direct hit of a frame.
  ghost predicate LastHit(r: Roster, target: nat, fr: Frame, b: nat) {
    && b < |SlotsIn(r, fr)| && IsHit(r, target, fr, SlotsIn(r, fr)[b])
    && forall i :: b < i < |SlotsIn(r, fr)| ==> !IsHit(r, target, fr, SlotsIn(r, fr)[i])
  }

  lemma {:induction false} LastHitExists(r: Roster, target: nat, fr: Frame, from: nat) returns (b: nat)
    requires from < |SlotsIn(r, fr)| && IsHit(r, target, fr, SlotsIn(r, fr)[from])
    ensures from <= b && LastHit(r, target, fr, b)
    decreases |SlotsIn(r, fr)| - from
  {
    hide IsHit, SlotsIn;
    if i :| from < i < |SlotsIn(r, fr)| && IsHit(r, target, fr, SlotsIn(r, fr)[i]) {
      b := LastHitExists(r, target, fr, i);
    } else {
      b := from;
    }
  }

  // A heavy candidate is on the chain ahead, or of a type that the frame has seen.
  ghost predicate HeavyAhead(r: Roster, target: nat, fr: Frame, chain: seq<Candidate>, heavy: set<Candidate>) {
    forall c :: c in heavy ==>
      && Has(r, c) && FormatOf(r, c).kind != target
      && (c in chain || FormatOf(r, c).kind == fr.kind || FormatOf(r, c).kind in fr.seen)
  }

  lemma HitQuality(r: Roster, target: nat, fr: Frame, c: Candidate)
    requires IsHit(r, target, fr, c)
    ensures OfferOf(r, target, fr, c) == Hit(Product(FormatOf(r, c)))
  {
  }

  // A candidate that is not heavy is worth no more than the direct hit.
  lemma LightOffer(q: Roster, target: nat, fr: Frame, heavy: set<Candidate>, hit: Candidate, c: Candidate)
    requires HasWeights(q, heavy, hit) && Has(q, hit) && FormatOf(q, hit).kind == target
    requires c !in heavy || !Open(q, fr, c)
    ensures OfferOf(q, target, fr, c) != Nothing ==> OfferOf(q, target, fr, c).quality <= 1.0
  {
    hide Found, Product;
    if Open(q, fr, c) {
      assert Product(FormatOf(q, c)) == if c == hit then 1.0 else 0.0;
    }
  }

  /** The last frame of the chain: it puts the direct hit in front of an earlier find. */
  lemma UnfairEnd(q: Roster, target: nat, fr: Frame, heavy: set<Candidate>, b: nat)
    requires NonNegative(q) && Late(q, target, fr) && LastHit(q, target, fr, b)
    requires HasWeights(q, heavy, SlotsIn(q, fr)[b]) && HeavyAhead(q, target, fr, [], heavy)
    ensures Found(q, target, fr).found && !Found(q, target, fr).fair && Found(q, target, fr).quality >= 1.0
  {
    FrameTakesAll(q, target, fr);
    var slots, offers := SlotsIn(q, fr), OffersIn(q, target, fr);
    var x, y :| LateHit(q, target, fr, x, y);
    assert y <= b && Leads(q, target, fr, slots[x]);
    hide Found, SlotsIn, OffersIn, Leads, TakeAll;
    forall i | 0 <= i < |slots|
      ensures offers[i] != Nothing ==> offers[i].quality >= 0.0
      ensures offers[i].Find? ==> offers[i].path != []
      ensures offers[i] != Nothing <==> Leads(q, target, fr, slots[i])
      ensures offers[i].Hit? <==> IsHit(q, target, fr, slots[i])
      ensures offers[i] != Nothing && i > b ==> offers[i].quality <= 1.0
    {
      LeadingIsOffered(q, target, fr, slots[i]);
      OnlyHitsHit(q, target, fr, slots[i]);
      if i > b { LightOffer(q, target, fr, heavy, slots[b], slots[i]); }
    }
    assert offers[b].quality == 1.0 by { HitQuality(q, target, fr, slots[b]); }
    UnfairFold(target, offers, x, b);
  }

  lemma NotOnChain(d: Candidate, c: Candidate, rest: seq<Candidate>)
    requires d != c && d !in rest
    ensures d !in [c] + rest
  {
  }

  lemma {:induction false} FirstAt(slots: seq<Candidate>, c: Candidate) returns (at: nat)
    requires c in slots
    ensures at < |slots| && slots[at] == c && c !in slots[..at]
  {
    if slots[0] == c {
      at := 0;
    } else {
      at := FirstAt(slots[1..], c);
      at := at + 1;
      assert slots[..at] == [slots[0]] + slots[1..][..at - 1];
    }
  }

  lemma HeavyOffer(q: Roster, target: nat, fr: Frame, c: Candidate)
    requires Open(q, fr, c) && FormatOf(q, c).kind != target && Product(FormatOf(q, c)) == 2.0
    requires var sub := Found(q, target, Sub(q, fr, c)); sub.found && !sub.fair && sub.quality >= 1.0
    ensures var offer := OfferOf(q, target, fr, c); offer.Find? && !offer.fair && offer.quality >= 2.0
  {
    hide Found, Product;
  }

  /** A frame before the last: it goes on along the chain, because nothing else is worth as much and no direct hit
      follows. */
  lemma UnfairStep(q: Roster, target: nat, fr: Frame, c: Candidate, rest: seq<Candidate>, heavy: set<Candidate>,
                   hit: Candidate)
    requires NonNegative(q) && c in SlotsIn(q, fr) && Open(q, fr, c) && FormatOf(q, c).kind != target
    requires var sub := Found(q, target, Sub(q, fr, c)); sub.found && !sub.fair && sub.quality >= 1.0
    requires HasWeights(q, heavy, hit) && Has(q, hit) && FormatOf(q, hit).kind == target
    requires c in heavy && HeavyAhead(q, target, fr, [c] + rest, heavy)
    requires !Late(q, target, fr) && forall d :: d in rest ==> d !in SlotsIn(q, fr)
    ensures Found(q, target, fr).found && !Found(q, target, fr).fair && Found(q, target, fr).quality >= 1.0
  {
    FrameTakesAll(q, target, fr);
    var slots, offers := SlotsIn(q, fr), OffersIn(q, target, fr);
    var at := FirstAt(slots, c);
    HeavyOffer(q, target, fr, c);
    ReachedIsFound(q, target, Sub(q, fr, c));
    assert Leads(q, target, fr, c);
    hide Found, SlotsIn, OffersIn, Leads, TakeAll, OfferOf;
    forall i | 0 <= i < |slots|
      ensures slots[i] != c && offers[i] != Nothing ==> offers[i].quality <= 1.0
      ensures offers[i].Hit? <==> IsHit(q, target, fr, slots[i])
    {
      OnlyHitsHit(q, target, fr, slots[i]);
      if slots[i] != c {
        assert slots[i] in slots;
        NotOnChain(slots[i], c, rest);
        LightOffer(q, target, fr, heavy, hit, slots[i]);
      }
    }
    forall i | at < i < |slots| ensures !IsHit(q, target, fr, slots[i]) {
      assert !LateHit(q, target, fr, at, i);
    }
    AdoptFold(target, offers, at);
  }

  lemma HeavySame(r: Roster, q: Roster, target: nat, fr: Frame, chain: seq<Candidate>, heavy: set<Candidate>)
    requires SameShape(r, q) && HeavyAhead(r, target, fr, chain, heavy)
    ensures HeavyAhead(q, target, fr, chain, heavy)
  {
  }

  lemma HeavyBelow(r: Roster, target: nat, fr: Frame, c: Candidate, rest: seq<Candidate>, heavy: set<Candidate>)
    requires Has(r, c) && HeavyAhead(r, target, fr, [c] + rest, heavy)
    ensures HeavyAhead(r, target, Sub(r, fr, c), rest, heavy)
  {
  }

  lemma LastHitSame(r: Roster, q: Roster, target: nat, fr: Frame, b: nat)
    requires SameShape(r, q) && LastHit(r, target, fr, b)
    ensures LastHit(q, target, fr, b) && SlotsIn(q, fr)[b] == SlotsIn(r, fr)[b]
  {
    SlotsSame(r, q, fr.kind, fr.ids);
    hide SameShape;
    forall c ensures IsHit(r, target, fr, c) <==> IsHit(q, target, fr, c) {
      FrameSame(r, q, target, fr, c);
    }
  }

  lemma LastHitIsHit(r: Roster, target: nat, fr: Frame, b: nat)
    requires LastHit(r, target, fr, b)
    ensures Has(r, SlotsIn(r, fr)[b]) && FormatOf(r, SlotsIn(r, fr)[b]).kind == target
  {
  }

  /** Along a tight chain every frame is unfair under these qualities. */
  lemma {:induction false} UnfairAlong(r: Roster, q: Roster, target: nat, fr: Frame, chain: seq<Candidate>,
                                       heavy: set<Candidate>, b: nat)
    requires SameShape(r, q) && NonNegative(q)
    requires LateAt(r, target, fr, chain) && Tight(r, target, fr, chain)
    requires LastHit(r, target, EndOf(r, target, fr, chain), b)
    requires HasWeights(q, heavy, SlotsIn(r, EndOf(r, target, fr, chain))[b])
    requires HeavyAhead(r, target, fr, chain, heavy) && forall c :: c in chain ==> c in heavy
    ensures Found(q, target, fr).found && !Found(q, target, fr).fair && Found(q, target, fr).quality >= 1.0
    decreases |chain|
  {
    SlotsSame(r, q, fr.kind, fr.ids);
    LateSame(r, q, target, fr);
    HeavySame(r, q, target, fr, chain, heavy);
    hide Found, Late, LastHit, HasWeights, HeavyAhead;
    if chain == [] {
      LastHitSame(r, q, target, fr, b);
      UnfairEnd(q, target, fr, heavy, b);
    } else {
      var c, rest := chain[0], chain[1..];
      assert chain == [c] + rest;
      FrameSame(r, q, target, fr, c);
      HeavyBelow(r, target, fr, c, rest, heavy);
      var hit := SlotsIn(r, EndOf(r, target, fr, chain))[b];
      LastHitIsHit(r, target, EndOf(r, target, fr, chain), b);
      FrameSame(r, q, target, fr, hit);
      UnfairAlong(r, q, target, Sub(r, fr, c), rest, heavy, b);
      forall d | d in rest ensures d !in SlotsIn(q, fr) {
        var k :| 0 <= k < |rest| && rest[k] == d;
        assert chain[k + 1] == d;
      }
      UnfairStep(q, target, fr, c, rest, heavy, hit);
    }
  }

  lemma {:induction false} ChainMembers(r: Roster, target: nat, fr: Frame, chain: seq<Candidate>)
    requires Chain(r, target, fr, chain)
    ensures forall c :: c in chain ==> Has(r, c) && FormatOf(r, c).kind != target
    decreases |chain|
  {
    if chain != [] {
      ChainMembers(r, target, Sub(r, fr, chain[0]), chain[1..]);
    }
  }

  lemma UnfairOnChain(r: Roster, target: nat, fr: Frame, chain: seq<Candidate>) returns (q: Roster)
    requires LateAt(r, target, fr, chain) && Tight(r, target, fr, chain)
    ensures SameShape(r, q) && NonNegative(q) && !Found(q, target, fr).fair
  {
    var end := EndOf(r, target, fr, chain);
    ChainMembers(r, target, fr, chain);
    var heavy := set c | c in chain;
    assert HeavyAhead(r, target, fr, chain, heavy);
    var x, y :| LateHit(r, target, end, x, y);
    var b := LastHitExists(r, target, end, y);
    hide Tight, Chain, EndOf, Found, Weigh, LastHit, Late, HeavyAhead, SlotsIn, SameShape, NonNegative, HasWeights;
    var hit := SlotsIn(r, end)[b];
    q := Weigh(r, heavy, hit);
    Weighed(r, heavy, hit);
    UnfairAlong(r, q, target, fr, chain, heavy, b);
  }

  /** A roster whose hits do not come first: these qualities make the search unfair. */
  lemma UnfairQualities(r: Roster, target: nat, fr: Frame) returns (q: Roster)
    requires !HitsFirst(r, target, fr)
    ensures SameShape(r, q) && NonNegative(q) && !Found(q, target, fr).fair
  {
    hide HitsFirst, LateAt, Found;
    var some := LateSomewhere(r, target, fr);
    var chain := ShortestExists(r, target, fr, some);
    ShortestIsTight(r, target, fr, chain);
    q := UnfairOnChain(r, target, fr, chain);
  }

  /** The path found, if any, has the target at its end only. */
  ghost predicate CleanFind(r: Roster, target: nat, fr: Frame) {
    Clean(Found(r, target, fr).path, target)
  }

  lemma FairIsClean(r: Roster, target: nat, fr: Frame)
    ensures Found(r, target, fr).fair <==> CleanFind(r, target, fr)
  {
    GoodIds(r, target, fr.kind, fr.group, fr.seen, fr.ids, fr.ids, NOTHING);
  }

  /** For a roster with its translators, types and groups fixed: the path found is clean for every choice of qualities
      and capabilities, if and only if in every frame the hits come first. This holds of all real qualities, and
      already of those that are not negative. */
  lemma CleanExactly(r: Roster, target: nat, fr: Frame)
    ensures HitsFirst(r, target, fr) <==> forall q :: SameShape(r, q) ==> CleanFind(q, target, fr)
    ensures HitsFirst(r, target, fr) <==> forall q :: SameShape(r, q) && NonNegative(q) ==> CleanFind(q, target, fr)
  {
    hide HitsFirst, Found, CleanFind, SameShape, NonNegative;
    if HitsFirst(r, target, fr) {
      forall q | SameShape(r, q) ensures CleanFind(q, target, fr) {
        HitsFirstSame(r, q, target, fr);
        HitsFirstIsFair(q, target, fr);
        FairIsClean(q, target, fr);
      }
    } else {
      var q := UnfairQualities(r, target, fr);
      FairIsClean(q, target, fr);
      assert SameShape(r, q) && NonNegative(q) && !CleanFind(q, target, fr);
    }
  }

  // A simple route has the target at its end only.
  lemma SimpleIsClean(r: Roster, target: nat, kind: nat, group: nat, ids: seq<int>, route: seq<Candidate>)
    requires SimpleRoute(r, target, kind, group, ids, route)
    ensures Clean(KindsOf(r, route), target)
  {
    var kinds := KindsOf(r, route);
    NoRepeatFirst(kind, kinds);
    hide Linked;
    assert kinds[|kinds| - 1] == target;
  }

  lemma UnfairIsFound(r: Roster, target: nat, fr: Frame)
    requires !Found(r, target, fr).fair
    ensures Found(r, target, fr).found
  {
    GoodIds(r, target, fr.kind, fr.group, fr.seen, fr.ids, fr.ids, NOTHING);
  }

  lemma UnfairIsNotBest(r: Roster, target: nat, kind: nat, group: nat, ids: seq<int>)
    requires !Found(r, target, Frame(kind, group, [], ids)).fair
    ensures !FindIsBest(r, target, kind, group, ids)
  {
    var fr := Frame(kind, group, [], ids);
    var b := Found(r, target, fr);
    UnfairIsFound(r, target, fr);
    FairIsClean(r, target, fr);
    assert b == OverIds(r, target, kind, group, [], ids, NOTHING);
    hide OverIds, Found, SimpleRoute;
    forall route | SimpleRoute(r, target, kind, group, ids, route) ensures KindsOf(r, route) != b.path {
      SimpleIsClean(r, target, kind, group, ids, route);
    }
    hide KindsOf;
  }

  /** And the path found is the best one for every choice of qualities that are not negative, if and only if in every
      frame the hits come first. */
  lemma BestExactly(r: Roster, target: nat, kind: nat, group: nat, ids: seq<int>)
    ensures HitsFirst(r, target, Frame(kind, group, [], ids))
       <==> forall q :: SameShape(r, q) && NonNegative(q) ==> FindIsBest(q, target, kind, group, ids)
  {
    var fr := Frame(kind, group, [], ids);
    hide HitsFirst, Found, CleanFind, SameShape, NonNegative, SimpleRoute;
    if HitsFirst(r, target, fr) {
      forall q | SameShape(r, q) && NonNegative(q) ensures FindIsBest(q, target, kind, group, ids) {
        HitsFirstSame(r, q, target, fr);
        FindsTheBest(q, target, kind, group, ids);
      }
    } else {
      var q := UnfairQualities(r, target, fr);
      UnfairIsNotBest(q, target, kind, group, ids);
      assert SameShape(r, q) && NonNegative(q) && !FindIsBest(q, target, kind, group, ids);
    }
  }

  /** In every frame: the quality kept is the best one offered if and only if no candidate in front of the last direct
      hit offers more. */
  lemma FrameKeepsTheBest(r: Roster, target: nat, fr: Frame)
    ensures var offers, kept := OffersIn(r, target, fr), Found(r, target, fr);
            && NoneBetter(offers, FromLastHit(offers), |offers|, kept.quality)
            && (kept != NOTHING ==>
                  exists i :: FromLastHit(offers) <= i < |offers| && offers[i] != Nothing
                              && offers[i].quality == kept.quality)
            && (NoneBetter(offers, 0, |offers|, kept.quality)
                <==> NoneBetter(offers, 0, FromLastHit(offers), kept.quality))
  {
    FrameTakesAll(r, target, fr);
    KeptQuality(target, OffersIn(r, target, fr));
    KeptIsBest(target, OffersIn(r, target, fr));
    hide Found, OffersIn, TakeAll, FromLastHit, NoneBetter;
  }

  /** Search and pipeline together, on a roster whose hits come first: the output file receives the composition of a
      chain of translators of the roster, from the input's type to the target. */
  lemma SearchTranslates(r: Roster, target: nat, kind: nat, group: nat, ids: seq<int>, tr: Translation, input: seq<int>)
    requires HitsFirst(r, target, Frame(kind, group, [], ids))
    requires OverIds(r, target, kind, group, [], ids, NOTHING).found
    ensures var path := OverIds(r, target, kind, group, [], ids, NOTHING).path;
            && Route(r, kind, group, ids, path) && path[|path| - 1] == target
            && Pipeline(tr, target, path, 0, input, [], [], []) == Compose(tr, input, path)
  {
    hide HitsFirst, OverIds;
    HitsFirstIsFair(r, target, Frame(kind, group, [], ids));
    FairSearchTranslates(r, target, kind, group, ids, tr, input);
  }

  /** The roster that breaks the search offers a late hit. */
  lemma BadRosterIsLate()
    ensures !HitsFirst(BadRoster(), 3, Frame(1, 0, [], [5]))
  {
    hide HitsFirst, OverIds, BadRoster;
    SearchCanBreak();
    if HitsFirst(BadRoster(), 3, Frame(1, 0, [], [5])) {
      HitsFirstIsFair(BadRoster(), 3, Frame(1, 0, [], [5]));
    }
  }
}

/** Translating the events of a simulated transaction in place and renumbering them per key. */
module SimulatedEvents {
  type EventKey = nat

  datatype Event =
    | V1(key: EventKey, number: nat, typeTag: nat, data: nat)
    | V2(v2Tag: nat, v2Data: nat)

  /** What the indexer makes of a V2 event; base is the key's next number on chain. */
  datatype Translation =
    | TranslationError
    | NoTranslation
    | TranslatesTo(key: EventKey, base: nat, typeTag: nat, data: nat)

  /** The reader may be missing, which is an error as soon as a V2 event turns up. */
  datatype Reader = NoReader | Reader(translate: Event -> Translation)

  /** Whether the constructor of a version-1 event accepts its arguments. */
  type Accepts = Event -> bool

  function Outcome(reader: Reader, e: Event): Translation {
    if e.V1? then NoTranslation
    else if reader.NoReader? then TranslationError
    else reader.translate(e)
  }

  predicate HitsKey(reader: Reader, e: Event, k: EventKey) {
    Outcome(reader, e).TranslatesTo? && Outcome(reader, e).key == k
  }

  /** How many of the first n events were translated to key k. */
  function Rank(reader: Reader, s: seq<Event>, n: nat, k: EventKey): nat
    requires n <= |s|
  {
    if n == 0 then 0 else Rank(reader, s, n - 1, k) + if HitsKey(reader, s[n - 1], k) then 1 else 0
  }

  /** Event i after translation: the k-th event of its key gets the base plus k. */
  function Renumbered(reader: Reader, s: seq<Event>, i: nat): Event
    requires i < |s|
  {
    match Outcome(reader, s[i])
    case TranslatesTo(key, base, tag, data) => V1(key, base + Rank(reader, s, i, key), tag, data)
    case _ => s[i]
  }

  /** Event i stops the translation: no reader, a failed lookup, or a rejected version-1 event. */
  predicate Fails(reader: Reader, accepts: Accepts, s: seq<Event>, i: nat)
    requires i < |s|
  {
    var o := Outcome(reader, s[i]);
    o.TranslationError? || (o.TranslatesTo? && !accepts(Renumbered(reader, s, i)))
  }

  /** n is the number of events before the first failure; all of them when there is none. */
  predicate FirstFailure(reader: Reader, accepts: Accepts, s: seq<Event>, n: nat) {
    && n <= |s|
    && (forall i :: 0 <= i < n ==> !Fails(reader, accepts, s, i))
    && (n < |s| ==> Fails(reader, accepts, s, n))
  }

  /**
   What translation makes of one event: version-1 events and events the indexer does not translate
   stay, others become version-1 events with the key, type and data that the indexer gave.
   */
  predicate Translated(reader: Reader, e: Event, e': Event) {
    match e
    case V1(_, _, _, _) => e' == e
    case V2(_, _) =>
      reader.Reader? &&
      match reader.translate(e)
      case TranslationError => false
      case NoTranslation => e' == e
      case TranslatesTo(key, base, tag, data) =>
        e'.V1? && e'.key == key && e'.number >= base && e'.typeTag == tag && e'.data == data
  }

  /** Why event e stops the translation; e' is the version-1 event that would have replaced it. */
  predicate Stops(reader: Reader, accepts: Accepts, e: Event, e': Event) {
    e.V2? &&
    (|| reader.NoReader?
     || reader.translate(e).TranslationError?
     || (Translated(reader, e, e') && e'.V1? && !accepts(e')))
  }

  /**
   Rewrites the slice front to back with a count per key. A failure stops it with the events
   before the offending one already rewritten.
   */
  method TranslateForSimulation(reader: Reader, accepts: Accepts, events: array<Event>) returns (ok: bool, ghost n: nat)
    modifies events
    ensures var s := old(events[..]);
            && FirstFailure(reader, accepts, s, n)
            && (ok <==> n == |s|)
            && (forall i :: 0 <= i < n ==> events[i] == Renumbered(reader, s, i))
            && (forall i :: 0 <= i < n ==> Translated(reader, s[i], events[i]))
            && (forall i :: n <= i < |s| ==> events[i] == s[i])
            && (!ok ==> Stops(reader, accepts, s[n], Renumbered(reader, s, n)))
  {
    ghost var s := events[..];
    var counts: map<EventKey, nat> := map[];
    var i := 0;
    while i < events.Length
      invariant i <= events.Length == |s|
      invariant forall j :: 0 <= j < i ==> !Fails(reader, accepts, s, j)
      invariant forall j :: 0 <= j < i ==> events[j] == Renumbered(reader, s, j) && Translated(reader, s[j], events[j])
      invariant forall j :: i <= j < |s| ==> events[j] == s[j]
      invariant forall k :: (if k in counts then counts[k] else 0) == Rank(reader, s, i, k)
    {
      n := i;
      var e := events[i];
      if e.V2? {
        if reader.NoReader? {
          return false, n;
        }
        match reader.translate(e) {
          case TranslationError =>
            return false, n;
          case NoTranslation =>
          case TranslatesTo(key, base, tag, data) =>
            var count := if key in counts then counts[key] else 0;
            var adjusted := V1(key, base + count, tag, data);
            if !accepts(adjusted) {
              return false, n;
            }
            events[i] := adjusted;
            counts := counts[key := count + 1];
        }
      }
      i := i + 1;
    }
    ok, n := true, i;
  }

  // ---------------------------------------------------------------- numbering

  lemma {:induction false} RankGrows(reader: Reader, s: seq<Event>, i: nat, j: nat, k: EventKey)
    requires i < j <= |s| && HitsKey(reader, s[i], k)
    ensures Rank(reader, s, i, k) < Rank(reader, s, j, k)
    decreases j
  {
    if i < j - 1 {
      RankGrows(reader, s, i, j - 1, k);
    }
  }

  lemma {:induction false} RankReached(reader: Reader, s: seq<Event>, n: nat, k: EventKey, r: nat) returns (i: nat)
    requires n <= |s| && r < Rank(reader, s, n, k)
    ensures i < n && HitsKey(reader, s[i], k) && Rank(reader, s, i, k) == r
  {
    if r == Rank(reader, s, n - 1, k) {
      i := n - 1;
    } else {
      i := RankReached(reader, s, n - 1, k, r);
    }
  }

  /** The base of a key does not change during the simulation. */
  predicate OneBase(reader: Reader, s: seq<Event>, k: EventKey, base: nat) {
    forall i :: 0 <= i < |s| && HitsKey(reader, s[i], k) ==> Outcome(reader, s[i]).base == base
  }

  /** Event i was translated to key k and got the given number. */
  predicate Numbered(reader: Reader, s: seq<Event>, i: nat, k: EventKey, number: nat)
    requires i < |s|
  {
    HitsKey(reader, s[i], k) && Renumbered(reader, s, i).number == number
  }

  /**
   The translated events of a key are numbered without gaps and without repeats: a number is
   used exactly when it lies in base .. base + count - 1, and then by exactly one event, and
   later events have higher numbers.
   */
  lemma NumbersGapFree(reader: Reader, s: seq<Event>, k: EventKey, base: nat, number: nat)
    requires OneBase(reader, s, k, base)
    ensures (exists i :: 0 <= i < |s| && Numbered(reader, s, i, k, number))
       <==> base <= number < base + Rank(reader, s, |s|, k)
    ensures forall i, j :: 0 <= i < |s| && 0 <= j < |s| && Numbered(reader, s, i, k, number) && Numbered(reader, s, j, k, number)
              ==> i == j
    ensures forall i, j :: 0 <= i < j < |s| && HitsKey(reader, s[i], k) && HitsKey(reader, s[j], k)
              ==> Renumbered(reader, s, i).number < Renumbered(reader, s, j).number
  {
    if base <= number < base + Rank(reader, s, |s|, k) {
      var i := RankReached(reader, s, |s|, k, number - base);
      assert Numbered(reader, s, i, k, number);
    }
    forall i | 0 <= i < |s| && Numbered(reader, s, i, k, number)
      ensures base <= number < base + Rank(reader, s, |s|, k)
    {
      RankGrows(reader, s, i, |s|, k);
    }
    forall i, j | 0 <= i < j < |s| && HitsKey(reader, s[i], k) && HitsKey(reader, s[j], k)
      ensures Renumbered(reader, s, i).number < Renumbered(reader, s, j).number
    {
      RankGrows(reader, s, i, j, k);
    }
  }
}

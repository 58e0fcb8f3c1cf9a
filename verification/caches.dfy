/** The five named caches the services annotate, the keys the annotations
    build, and the two cache behaviours the annotations ask for: read-through
    on `@Cacheable` and eviction on `@CacheEvict`.

    Keys are text: the cache manager serialises every key with a string
    serializer, so a numeric id is stored under its decimal rendering. Entries
    carry no expiry here; they live until evicted. */
module Caches {
  import opened Outcomes
  import opened Entities
  import opened Text

  datatype CacheName = FlightsCache | FlightSearchesCache | BookingsCache | UserBookingsCache | UsersCache

  datatype Caches = Caches(
    flights: map<string, Flight>,
    flightSearches: map<string, seq<Flight>>,
    bookings: map<string, Booking>,
    userBookings: map<string, seq<Booking>>,
    users: map<string, UserView>)

  function NoEntries(): Caches {
    Caches(map[], map[], map[], map[], map[])
  }

  // ---- keys ----

  /** `key = "#id"` on a numeric id: its decimal text, which reads back as the id. */
  function IdKey(id: int): (k: string)
    ensures 1 <= |k| && (k[0] == '-' || IsDigit(k[0]))
    ensures forall i :: 1 <= i < |k| ==> IsDigit(k[i])
    ensures ParseInt(k) == id
  {
    IntToStringRoundTrip(id);
    IntToString(id)
  }

  /** `key = "'number:' + #flightNumber"`: the flight number follows the prefix unchanged. */
  function NumberKey(flightNumber: string): (k: string)
    ensures |k| == |NumberPrefix| + |flightNumber|
    ensures k[..|NumberPrefix|] == NumberPrefix && k[|NumberPrefix|..] == flightNumber
  {
    NumberPrefix + flightNumber
  }

  const NumberPrefix := "number:"

  /** `key = "#origin + ':' + #destination + ':' + #departureTime + ':' + #seats"`:
      the key opens with the origin code and a ':'. */
  function SearchKey(origin: string, destination: string, departureTime: int, seats: int): (k: string)
    ensures |k| > |origin| && k[..|origin|] == origin && k[|origin|] == ':'
  {
    origin + ":" + destination + ":" + IntToString(departureTime) + ":" + IntToString(seats)
  }

  /** `key = "'ref:' + #reference"`: the reference follows the prefix unchanged. */
  function ReferenceKey(reference: string): (k: string)
    ensures |k| == |ReferencePrefix| + |reference|
    ensures k[..|ReferencePrefix|] == ReferencePrefix && k[|ReferencePrefix|..] == reference
  {
    ReferencePrefix + reference
  }

  const ReferencePrefix := "ref:"

  /** Distinct flight numbers have distinct keys, and so do distinct references. */
  lemma PrefixedKeysDiffer(a: string, b: string)
    ensures NumberKey(a) == NumberKey(b) <==> a == b
    ensures ReferenceKey(a) == ReferenceKey(b) <==> a == b
  {
    if NumberKey(a) == NumberKey(b) {
      assert a == NumberKey(a)[|NumberPrefix|..];
    }
    if ReferenceKey(a) == ReferenceKey(b) {
      assert a == ReferenceKey(a)[|ReferencePrefix|..];
    }
  }

  predicate NoColon(s: string) {
    forall i :: 0 <= i < |s| ==> s[i] != ':'
  }

  /** Text joined at a ':' splits back at its first ':' when the part in front has none. */
  lemma SplitAtColon(a: string, b: string, c: string, e: string)
    requires NoColon(a) && NoColon(c)
    requires a + ":" + b == c + ":" + e
    ensures a == c && b == e
  {
    var x := a + ":" + b;
    assert x[|a|] == ':' && x[|c|] == ':';
    assert forall i :: 0 <= i < |a| ==> x[i] == a[i];
    assert forall i :: 0 <= i < |c| ==> x[i] == c[i];
    assert |a| == |c|;
    assert a == x[..|a|] && c == x[..|c|];
    assert b == x[|a| + 1..] && e == x[|c| + 1..];
  }

  lemma SearchKeyParts(origin: string, destination: string, departureTime: int, seats: int)
    ensures SearchKey(origin, destination, departureTime, seats)
         == origin + ":" + (destination + ":" + (IntToString(departureTime) + ":" + IntToString(seats)))
  {
    var t := IntToString(departureTime);
    var n := IntToString(seats);
    assert origin + ":" + (destination + ":" + (t + ":" + n))
        == origin + ":" + destination + ":" + t + ":" + n;
  }

  /** When neither route code contains ':', the search key determines the search:
      two searches share an entry exactly when all four parameters agree. */
  lemma SearchKeyIdentifies(o1: string, d1: string, t1: int, n1: int, o2: string, d2: string, t2: int, n2: int)
    requires NoColon(o1) && NoColon(d1) && NoColon(o2) && NoColon(d2)
    ensures SearchKey(o1, d1, t1, n1) == SearchKey(o2, d2, t2, n2) <==> o1 == o2 && d1 == d2 && t1 == t2 && n1 == n2
  {
    if SearchKey(o1, d1, t1, n1) == SearchKey(o2, d2, t2, n2) {
      var a1, b1 := IntToString(t1), IntToString(n1);
      var a2, b2 := IntToString(t2), IntToString(n2);
      SearchKeyParts(o1, d1, t1, n1);
      SearchKeyParts(o2, d2, t2, n2);
      SplitAtColon(o1, d1 + ":" + (a1 + ":" + b1), o2, d2 + ":" + (a2 + ":" + b2));
      SplitAtColon(d1, a1 + ":" + b1, d2, a2 + ":" + b2);
      assert NoColon(a1) && NoColon(a2);
      SplitAtColon(a1, b1, a2, b2);
      IntToStringInjective(t1, t2);
      IntToStringInjective(n1, n2);
    }
  }

  /** An id key starts with a digit or a minus sign, a number key with 'n':
      the two kinds of key in the flights cache never coincide. */
  lemma IdAndNumberKeysDiffer(id: int, flightNumber: string)
    ensures IdKey(id) != NumberKey(flightNumber)
  {
    assert NumberKey(flightNumber)[0] == 'n';
  }

  /** Distinct flight ids have distinct keys. */
  lemma IdKeysDiffer(a: int, b: int)
    ensures IdKey(a) == IdKey(b) <==> a == b
  {
    IntToStringInjective(a, b);
  }

  /** The search key joins its parts with ':' without escaping them, so two
      different searches whose route codes contain ':' share one entry. */
  lemma SearchKeysCollide(departureTime: int, seats: int)
    ensures SearchKey("A:B", "C", departureTime, seats) == SearchKey("A", "B:C", departureTime, seats)
  {
    SearchKeySplits("A:B", "C", departureTime, seats);
    SearchKeySplits("A", "B:C", departureTime, seats);
    assert "A:B" + ":" + "C" == "A" + ":" + "B:C";
  }

  /** The search key is the route part followed by the part after it. */
  lemma SearchKeySplits(origin: string, destination: string, departureTime: int, seats: int)
    ensures SearchKey(origin, destination, departureTime, seats)
         == (origin + ":" + destination) + (":" + IntToString(departureTime) + ":" + IntToString(seats))
  {
    var t := IntToString(departureTime);
    var n := IntToString(seats);
    assert (origin + ":" + destination) + (":" + t + ":" + n)
        == origin + ":" + destination + ":" + t + ":" + n;
  }

  // ---- eviction ----

  /** One `@CacheEvict`: a single key, or every entry (`allEntries = true`). */
  datatype Eviction = EvictKey(cache: CacheName, key: string) | EvictAll(cache: CacheName)

  predicate Evicts(evs: seq<Eviction>, cache: CacheName, key: string) {
    EvictAll(cache) in evs || EvictKey(cache, key) in evs
  }

  function Drop<V>(m: map<string, V>, evs: seq<Eviction>, cache: CacheName): (r: map<string, V>)
    ensures forall k :: k in r <==> k in m && !Evicts(evs, cache, k)
    ensures forall k :: k in r ==> r[k] == m[k]
  {
    map k | k in m && !Evicts(evs, cache, k) :: m[k]
  }

  /** Applies a list of evictions to every cache. */
  function Evict(c: Caches, evs: seq<Eviction>): (r: Caches)
    ensures forall k :: k in r.flights <==> k in c.flights && !Evicts(evs, FlightsCache, k)
    ensures forall k :: k in r.flightSearches <==> k in c.flightSearches && !Evicts(evs, FlightSearchesCache, k)
    ensures forall k :: k in r.bookings <==> k in c.bookings && !Evicts(evs, BookingsCache, k)
    ensures forall k :: k in r.userBookings <==> k in c.userBookings && !Evicts(evs, UserBookingsCache, k)
    ensures forall k :: k in r.users <==> k in c.users && !Evicts(evs, UsersCache, k)
    ensures forall k :: k in r.flights ==> r.flights[k] == c.flights[k]
    ensures forall k :: k in r.flightSearches ==> r.flightSearches[k] == c.flightSearches[k]
    ensures forall k :: k in r.bookings ==> r.bookings[k] == c.bookings[k]
    ensures forall k :: k in r.userBookings ==> r.userBookings[k] == c.userBookings[k]
    ensures forall k :: k in r.users ==> r.users[k] == c.users[k]
  {
    Caches(
      Drop(c.flights, evs, FlightsCache),
      Drop(c.flightSearches, evs, FlightSearchesCache),
      Drop(c.bookings, evs, BookingsCache),
      Drop(c.userBookings, evs, UserBookingsCache),
      Drop(c.users, evs, UsersCache))
  }

  // ---- the eviction sets the services declare ----

  /** On flight creation: every entry of `flights` and of `flightSearches`. */
  function CreateFlightEvictions(): (evs: seq<Eviction>)
    ensures forall cache, key :: Evicts(evs, cache, key) <==> cache == FlightsCache || cache == FlightSearchesCache
  {
    [EvictAll(FlightsCache), EvictAll(FlightSearchesCache)]
  }

  /** On flight update, flight deletion and seat decrease: the id entry of the
      flight and every entry of `flightSearches`. */
  function FlightChangeEvictions(id: int): (evs: seq<Eviction>)
    ensures forall cache, key :: Evicts(evs, cache, key) <==>
      cache == FlightSearchesCache || (cache == FlightsCache && key == IdKey(id))
  {
    [EvictKey(FlightsCache, IdKey(id)), EvictAll(FlightSearchesCache)]
  }

  /** On user synchronisation: every entry of `users`. */
  function UserSyncEvictions(): (evs: seq<Eviction>)
    ensures forall cache, key :: Evicts(evs, cache, key) <==> cache == UsersCache
  {
    [EvictAll(UsersCache)]
  }

  /** A flight change leaves the flight's number entry in place: only the id
      entry is named, and the two kinds of key never coincide. */
  lemma FlightChangeKeepsNumberEntry(id: int, flightNumber: string)
    ensures !Evicts(FlightChangeEvictions(id), FlightsCache, NumberKey(flightNumber))
  {
    IdAndNumberKeysDiffer(id, flightNumber);
  }

  /** Flight creation empties the flights and flightSearches caches and keeps the rest. */
  lemma CreateFlightClears(c: Caches)
    ensures Evict(c, CreateFlightEvictions()) == c.(flights := map[], flightSearches := map[])
  {
    var r := Evict(c, CreateFlightEvictions());
    assert r.flights == map[] && r.flightSearches == map[];
    assert r.bookings == c.bookings && r.userBookings == c.userBookings && r.users == c.users;
  }

  /** User synchronisation empties the users cache and keeps the rest. */
  lemma UserSyncClears(c: Caches)
    ensures Evict(c, UserSyncEvictions()) == c.(users := map[])
  {
    var r := Evict(c, UserSyncEvictions());
    assert r.users == map[];
    assert r.flights == c.flights && r.flightSearches == c.flightSearches;
    assert r.bookings == c.bookings && r.userBookings == c.userBookings;
  }

  /** A flight change evicts nothing outside the flights and flightSearches caches. */
  lemma FlightChangeSparesOtherCaches(id: int, cache: CacheName, key: string)
    requires cache != FlightsCache && cache != FlightSearchesCache
    ensures !Evicts(FlightChangeEvictions(id), cache, key)
  {
  }

  // ---- read-through ----

  /** `@Cacheable`: a hit returns the stored value and the method does not run;
      on a miss the method's outcome is returned, a failure stores nothing, and
      a value is stored unless `keep` (the negated `unless` condition) rejects it. */
  function ReadThrough<V>(m: map<string, V>, key: string, load: Result<V>, keep: V -> bool): (r: (Result<V>, map<string, V>))
    ensures key in m ==> r.0 == Ok(m[key]) && r.1 == m
    ensures key !in m ==> r.0 == load
    ensures key !in m && load.Ok? && keep(load.value) ==> r.1 == m[key := load.value]
    ensures key !in m && !(load.Ok? && keep(load.value)) ==> r.1 == m
  {
    if key in m then (Ok(m[key]), m)
    else if load.Ok? && keep(load.value) then (load, m[key := load.value])
    else (load, m)
  }

  /** Once a miss has stored a value, the next read of that key is a hit: it
      returns the stored value whatever the method would now return, and the
      cache stays as it is. */
  lemma ReadThroughThenHits<V>(m: map<string, V>, key: string, load: Result<V>, keep: V -> bool,
                               later: Result<V>, keepLater: V -> bool)
    requires key !in m && load.Ok? && keep(load.value)
    ensures var stored := ReadThrough(m, key, load, keep).1;
      ReadThrough(stored, key, later, keepLater) == (Ok(load.value), stored)
  {
  }

  /** Reading a key twice with the same method outcome returns what the first
      read returned and leaves the cache as the first read left it; no other
      key is added, dropped or changed. */
  lemma ReadThroughRepeats<V>(m: map<string, V>, key: string, load: Result<V>, keep: V -> bool)
    ensures var (first, after) := ReadThrough(m, key, load, keep);
      && ReadThrough(after, key, load, keep) == (first, after)
      && (forall k :: k != key ==> (k in after <==> k in m))
      && (forall k :: k != key && k in m ==> after[k] == m[k])
  {
  }

  /** `unless = "#result == null"`: a value the method returns is never null, so
      every value is kept. */
  function KeepAll<V>(): V -> bool {
    (v: V) => true
  }

  /** `unless = "#result == null || #result.isEmpty()"`: empty lists are not kept. */
  function KeepNonEmpty<V>(): seq<V> -> bool {
    (vs: seq<V>) => |vs| > 0
  }
}

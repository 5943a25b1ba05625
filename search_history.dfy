/**
 * The search history store: one persisted slot holding a newest-first list of past searches,
 * capped at fifty entries. The slot is read and rewritten whole by every operation.
 */
module SearchHistory {
  import opened Wrappers
  import Decimal

  /** `.slice(0, 50)` in saveSearch: the most entries a save leaves in the slot. */
  const Capacity: nat := 50

  // ---------------------------------------------------------------------------
  // The stored result shape (the results view's `ResearchResult` and its `Article`)
  // ---------------------------------------------------------------------------

  /** `year: string | number` */
  datatype Year = NumericYear(n: int) | TextYear(text: string)

  datatype CitedArticle = CitedArticle(
    id: string,
    title: string,
    authors: seq<string>,
    journal: string,
    year: Year,
    doi: Option<string>)

  datatype ResearchResult = ResearchResult(
    query: string,
    explanation: string,
    articles: seq<CitedArticle>,
    followUpQuestions: seq<string>)

  // ---------------------------------------------------------------------------
  // Dates and their serialised form
  // ---------------------------------------------------------------------------

  /** A JavaScript `Date`: an instant in milliseconds since the epoch, or an Invalid Date. */
  datatype Date = Instant(ms: int) | InvalidDate

  /**
   * What `JSON.stringify` writes for a `Date` (its `toJSON`): the ISO text of the instant,
   * represented here by the instant it denotes, or `null` for an Invalid Date.
   */
  datatype SerialDate = IsoText(ms: int) | JsonNull

  function DateToJson(d: Date): (j: SerialDate)
    ensures j.IsoText? <==> d.Instant?
    ensures j.IsoText? ==> j.ms == d.ms
  {
    match d
    case Instant(ms) => IsoText(ms)
    case InvalidDate => JsonNull
  }

  /** `new Date(item.timestamp)`: ISO text gives its instant back; `new Date(null)` is the epoch. */
  function ReviveDate(t: SerialDate): (d: Date)
    ensures d.Instant?
    ensures t.IsoText? ==> d == Instant(t.ms)
    ensures t.JsonNull? ==> d == Instant(0)
  {
    match t
    case IsoText(ms) => Instant(ms)
    case JsonNull => Instant(0)
  }

  /** A date survives serialisation exactly when it is a valid instant. */
  lemma DateRoundTrip(d: Date)
    ensures ReviveDate(DateToJson(d)) == d <==> d.Instant?
  {
  }

  // ---------------------------------------------------------------------------
  // History entries, in memory and in the slot
  // ---------------------------------------------------------------------------

  /** `SearchHistoryItem` */
  datatype HistoryItem = HistoryItem(id: string, query: string, timestamp: Date, result: ResearchResult)

  /** A `SearchHistoryItem` as `JSON.stringify` leaves it in the slot. */
  datatype StoredItem = StoredItem(id: string, query: string, timestamp: SerialDate, result: ResearchResult)

  /**
   * The content of the slot when present. `Unreadable` stands for every text on which the read
   * throws and falls into its `catch`: text `JSON.parse` rejects, a parsed value that is not an
   * array, and an array holding `null`.
   */
  datatype Slot = Entries(items: seq<StoredItem>) | Unreadable

  /** Stringifying an entry leaves its id, query and result as they are and serialises its date. */
  function Serialize(item: HistoryItem): (r: StoredItem)
    ensures r.id == item.id && r.query == item.query && r.result == item.result
    ensures r.timestamp == DateToJson(item.timestamp)
  {
    StoredItem(item.id, item.query, DateToJson(item.timestamp), item.result)
  }

  /** `{ ...item, timestamp: new Date(item.timestamp) }` */
  function Deserialize(stored: StoredItem): (r: HistoryItem)
    ensures r.id == stored.id && r.query == stored.query && r.result == stored.result
    ensures r.timestamp == ReviveDate(stored.timestamp) && r.timestamp.Instant?
  {
    HistoryItem(stored.id, stored.query, ReviveDate(stored.timestamp), stored.result)
  }

  function SerializeAll(items: seq<HistoryItem>): seq<StoredItem> {
    seq(|items|, i requires 0 <= i < |items| => Serialize(items[i]))
  }

  function DeserializeAll(stored: seq<StoredItem>): seq<HistoryItem> {
    seq(|stored|, i requires 0 <= i < |stored| => Deserialize(stored[i]))
  }

  /**
   * The list `getSearchHistory` returns for a given slot: empty when the slot is absent or
   * unreadable, otherwise every stored entry with its timestamp rebuilt, in stored order.
   */
  function Read(stored: Option<Slot>): (items: seq<HistoryItem>)
    ensures stored.None? ==> items == []
    ensures stored == Some(Unreadable) ==> items == []
    ensures stored.Some? && stored.value.Entries? ==> |items| == |stored.value.items|
    ensures forall i :: 0 <= i < |items| ==> items[i].timestamp.Instant?
  {
    match stored
    case None => []
    case Some(Unreadable) => []
    case Some(Entries(xs)) => DeserializeAll(xs)
  }

  /** Writing a list whose timestamps are valid and reading it back gives the same list. */
  lemma ReadAfterWrite(items: seq<HistoryItem>)
    requires forall i :: 0 <= i < |items| ==> items[i].timestamp.Instant?
    ensures Read(Some(Entries(SerializeAll(items)))) == items
  {
  }

  // ---------------------------------------------------------------------------
  // The list operations behind saveSearch and deleteSearchItem
  // ---------------------------------------------------------------------------

  function Min(a: int, b: int): int {
    if a <= b then a else b
  }

  /** `Array.prototype.slice(0, n)`: the first `n` elements, or all of them when there are fewer. */
  function Take<T>(s: seq<T>, n: nat): (r: seq<T>)
    ensures |r| == Min(n, |s|)
    ensures r == s[..|r|]
  {
    s[..Min(n, |s|)]
  }

  /**
   * `[historyItem, ...existingHistory].slice(0, 50)`: the new entry first, the previous entries
   * behind it in order, and only what exceeds the capacity dropped from the back.
   */
  function Saved(history: seq<HistoryItem>, item: HistoryItem): (r: seq<HistoryItem>)
    ensures |r| == Min(|history| + 1, Capacity)
    ensures r[0] == item
    ensures r[1..] == history[..Min(|history|, Capacity - 1)]
  {
    Take([item] + history, Capacity)
  }

  /** When the list is full, exactly its last (oldest) entry is evicted. */
  lemma SavedWhenFull(history: seq<HistoryItem>, item: HistoryItem)
    requires |history| == Capacity
    ensures Saved(history, item) == [item] + history[..Capacity - 1]
    ensures |Saved(history, item)| == Capacity
  {
  }

  /** `history.filter(item => item.id !== id)` */
  function Without(history: seq<HistoryItem>, id: string): (r: seq<HistoryItem>)
    ensures |r| <= |history|
    ensures forall x :: x in r <==> x in history && x.id != id
    decreases |history|
  {
    if history == [] then []
    else (if history[0].id != id then [history[0]] else []) + Without(history[1..], id)
  }

  /** Filtering distributes over concatenation, so it keeps the survivors' relative order. */
  lemma {:induction false} WithoutConcat(a: seq<HistoryItem>, b: seq<HistoryItem>, id: string)
    ensures Without(a + b, id) == Without(a, id) + Without(b, id)
    decreases |a|
  {
    if a == [] {
      assert a + b == b;
    } else {
      assert (a + b)[1..] == a[1..] + b;
      WithoutConcat(a[1..], b, id);
    }
  }

  /** Every entry carrying the id is removed, and every other entry keeps its multiplicity. */
  lemma {:induction false} WithoutCounts(history: seq<HistoryItem>, id: string, x: HistoryItem)
    ensures multiset(Without(history, id))[x] == if x.id == id then 0 else multiset(history)[x]
    decreases |history|
  {
    if history != [] {
      WithoutCounts(history[1..], id, x);
      assert history == [history[0]] + history[1..];
    }
  }

  /** An id that no entry carries leaves the list as it was. */
  lemma {:induction false} WithoutUnknownId(history: seq<HistoryItem>, id: string)
    requires forall i :: 0 <= i < |history| ==> history[i].id != id
    ensures Without(history, id) == history
    decreases |history|
  {
    if history != [] {
      WithoutUnknownId(history[1..], id);
    }
  }

  // ---------------------------------------------------------------------------
  // A series of saves
  // ---------------------------------------------------------------------------

  function Reversed<T>(s: seq<T>): (r: seq<T>)
    ensures |r| == |s|
  {
    if s == [] then [] else Reversed(s[1..]) + [s[0]]
  }

  /** The list after saving `items` one after the other, first to last, onto `history`. */
  function SaveAll(history: seq<HistoryItem>, items: seq<HistoryItem>): seq<HistoryItem>
    decreases |items|
  {
    if items == [] then history else SaveAll(Saved(history, items[0]), items[1..])
  }

  /** Truncating a tail before prepending changes nothing once the whole is truncated. */
  lemma TakeAfterPrefix<T>(p: seq<T>, s: seq<T>, n: nat)
    ensures Take(p + Take(s, n), n) == Take(p + s, n)
  {
  }

  /**
   * A series of saves onto a list within capacity leaves the newest fifty entries, newest first,
   * followed by the old list.
   */
  lemma {:induction false} SaveAllNewestFirst(history: seq<HistoryItem>, items: seq<HistoryItem>)
    requires |history| <= Capacity
    ensures SaveAll(history, items) == Take(Reversed(items) + history, Capacity)
    decreases |items|
  {
    if items != [] {
      var rest := items[1..];
      SaveAllNewestFirst(Saved(history, items[0]), rest);
      TakeAfterPrefix(Reversed(rest), [items[0]] + history, Capacity);
      assert Reversed(rest) + ([items[0]] + history) == Reversed(items) + history;
    }
  }

  /**
   * Fifty-one saves onto an empty list leave fifty entries, and the one evicted is the first
   * one saved: the eviction follows insertion order, not reads.
   */
  lemma FirstSavedIsEvicted(items: seq<HistoryItem>)
    requires |items| == Capacity + 1
    ensures SaveAll([], items) == Reversed(items[1..])
    ensures |SaveAll([], items)| == Capacity
  {
    SaveAllNewestFirst([], items);
    assert items == [items[0]] + items[1..];
    assert Reversed(items) + [] == Reversed(items[1..]) + [items[0]];
  }

  // ---------------------------------------------------------------------------
  // The service over its slot
  // ---------------------------------------------------------------------------

  /**
   * `SearchHistoryService`: its static methods read and rewrite one `localStorage` slot, which
   * an instance of this class stands for. `stored` is `None` when the slot holds nothing.
   */
  class SearchHistoryService {
    var stored: Option<Slot>

    constructor (initial: Option<Slot>)
      ensures stored == initial
    {
      stored := initial;
    }

    /** The list the store currently presents. */
    function History(): seq<HistoryItem>
      reads this
    {
      Read(stored)
    }

    /** The capacity invariant of the slot. */
    predicate Bounded()
      reads this
    {
      stored.Some? && stored.value.Entries? ==> |stored.value.items| <= Capacity
    }

    /** `getSearchHistory`: reads the slot and changes nothing. */
    method GetSearchHistory() returns (items: seq<HistoryItem>)
      ensures items == History()
      ensures stored.None? || stored == Some(Unreadable) ==> items == []
      ensures stored.Some? && stored.value.Entries? ==> |items| == |stored.value.items|
      ensures forall i :: 0 <= i < |items| ==> items[i].timestamp.Instant?
    {
      if stored.None? {
        return [];
      }
      match stored.value
      case Unreadable =>
        items := [];
      case Entries(xs) =>
        items := DeserializeAll(xs);
    }

    /**
     * `saveSearch`: the id is `Date.now().toString()` (read as `clockMs`), the timestamp
     * `new Date()` (read as `nowMs`, a separate reading of the clock).
     */
    method SaveSearch(query: string, result: ResearchResult, clockMs: nat, nowMs: nat)
      modifies this
      ensures var item := HistoryItem(Decimal.NatToString(clockMs), query, Instant(nowMs), result);
        && stored == Some(Entries(SerializeAll(Saved(old(History()), item))))
        && History() == Saved(old(History()), item)
        && History()[0] == item
      ensures |History()| == Min(|old(History())| + 1, Capacity)
      ensures History()[1..] == old(History())[..Min(|old(History())|, Capacity - 1)]
      ensures Bounded()
    {
      var item := HistoryItem(Decimal.NatToString(clockMs), query, Instant(nowMs), result);
      var existingHistory := GetSearchHistory();
      var updatedHistory := Take([item] + existingHistory, Capacity);
      stored := Some(Entries(SerializeAll(updatedHistory)));
      ReadAfterWrite(updatedHistory);
    }

    /** `deleteSearchItem`: rewrites the slot with every entry whose id differs from `id`. */
    method DeleteSearchItem(id: string)
      modifies this
      ensures stored == Some(Entries(SerializeAll(Without(old(History()), id))))
      ensures History() == Without(old(History()), id)
      ensures old(Bounded()) ==> Bounded()
    {
      var history := GetSearchHistory();
      var filtered := Without(history, id);
      stored := Some(Entries(SerializeAll(filtered)));
      ReadAfterWrite(filtered);
    }

    /** `clearHistory`: removes the slot, whatever it held. */
    method ClearHistory()
      modifies this
      ensures stored == None
      ensures History() == [] && Bounded()
    {
      stored := None;
    }
  }
}

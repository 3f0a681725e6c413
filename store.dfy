/**
 * The online cache store: the subset of the key-value engine's behaviour the
 * service relies on (SET, SETEX, GET and a prefix KEYS scan), with the clock
 * passed in as `now`, in seconds. Expired entries stay in the map and are simply
 * invisible, which is how an expired key behaves to every reader.
 */
module OnlineStore {
  import opened Wrappers
  import opened Text
  import Codec

  /** Encoded value and, when the key has a time-to-live, the second at which it expires. */
  datatype Entry = Entry(text: string, expiry: Option<int>)

  /** Whether the entry is still visible at `now`: it has no expiry, or its expiry lies ahead. */
  predicate Live(entry: Entry, now: int)
  {
    entry.expiry.None? || now < entry.expiry.value
  }

  /** Expiry is final: an entry invisible at `now` stays invisible later, and one without expiry never goes. */
  lemma ExpiredStaysExpired(entry: Entry, now: int, later: int)
    requires now <= later
    ensures !Live(entry, now) ==> !Live(entry, later)
    ensures entry.expiry.None? ==> Live(entry, later)
  {
  }

  /** GET: the stored text, or nothing when the key is missing or expired. */
  function Lookup(entries: map<string, Entry>, key: string, now: int): (r: Option<string>)
    ensures r.Some? <==> key in entries && Live(entries[key], now)
  {
    if key in entries && Live(entries[key], now) then Some(entries[key].text) else None
  }

  /** The keys a `KEYS <prefix>*` scan reports at `now`. */
  function LiveKeysWithPrefix(entries: map<string, Entry>, prefix: string, now: int): (keys: set<string>)
    ensures forall k :: k in keys <==> HasPrefix(prefix, k) && Lookup(entries, k, now).Some?
  {
    set k | k in entries && Live(entries[k], now) && HasPrefix(prefix, k)
  }

  /** Every stored text was written by the codec, so decoding it succeeds. */
  predicate AllDecodable(entries: map<string, Entry>)
  {
    forall k :: k in entries ==> Codec.Decode(entries[k].text).Some?
  }

  class Store {
    var entries: map<string, Entry>

    ghost predicate Valid()
      reads this
    {
      AllDecodable(entries)
    }

    constructor ()
      ensures Valid() && entries == map[]
    {
      entries := map[];
    }

    /** SET without options: replaces the value and removes any expiry the key had. */
    method Set(key: string, text: string)
      modifies this
      ensures entries == old(entries)[key := Entry(text, None)]
    {
      entries := entries[key := Entry(text, None)];
    }

    /**
     * SETEX: replaces the value and sets the expiry to `now + seconds`. The engine
     * refuses a time-to-live that is not positive and then writes nothing.
     */
    method SetEx(key: string, seconds: int, text: string, now: int) returns (ok: bool)
      modifies this
      ensures ok <==> seconds > 0
      ensures entries == if ok then old(entries)[key := Entry(text, Some(now + seconds))] else old(entries)
    {
      ok := seconds > 0;
      if ok {
        entries := entries[key := Entry(text, Some(now + seconds))];
      }
    }

    method Get(key: string, now: int) returns (r: Option<string>)
      ensures r.Some? <==> key in entries && Live(entries[key], now)
      ensures r.Some? ==> r.value == entries[key].text
    {
      if key in entries && Live(entries[key], now) {
        r := Some(entries[key].text);
      } else {
        r := None;
      }
    }

    /** KEYS `<prefix>*`: each live key with that prefix exactly once, in no particular order. */
    method Keys(prefix: string, now: int) returns (keys: seq<string>)
      ensures forall k :: k in keys <==> k in LiveKeysWithPrefix(entries, prefix, now)
      ensures forall i, j :: 0 <= i < j < |keys| ==> keys[i] != keys[j]
    {
      keys := [];
      var remaining := entries.Keys;
      while remaining != {}
        invariant remaining <= entries.Keys
        invariant forall k :: k in keys <==> k in LiveKeysWithPrefix(entries, prefix, now) && k !in remaining
        invariant forall i, j :: 0 <= i < j < |keys| ==> keys[i] != keys[j]
        decreases remaining
      {
        var k :| k in remaining;
        if Live(entries[k], now) && HasPrefix(prefix, k) {
          keys := keys + [k];
        }
        remaining := remaining - {k};
      }
    }
  }
}

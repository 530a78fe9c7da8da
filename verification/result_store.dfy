/**
 * The process-wide result cache of the service: `uuid_image_map`, which maps
 * a fresh key to the PNG bytes an image request produced, and
 * `latest_file_uuid`, the key of the most recent of them, which `/processed`
 * serves.
 */
module ResultStore {

  datatype Option<T> = None | Some(value: T)

  type Byte = bv8

  /** The text form of a version-4 UUID, `str(uuid.uuid4())`: always 36 characters. */
  type Key = k: string | |k| == 36 witness "00000000-0000-0000-0000-000000000000"

  class Store {
    /** `uuid_image_map`: every result produced so far, under its key. */
    var entries: map<Key, seq<Byte>>
    /** `latest_file_uuid`: `None` until the first result is stored. */
    var latest: Option<Key>
    /** Every buffer ever stored, oldest first. */
    ghost var stored: seq<seq<Byte>>

    /** The latest key names an entry holding the most recently stored buffer. */
    ghost predicate Valid()
      reads this
    {
      && (latest == None <==> stored == [])
      && (latest.Some? ==> latest.value in entries && entries[latest.value] == stored[|stored| - 1])
    }

    /** The state at process start: an empty map and no latest key. */
    constructor ()
      ensures Valid()
      ensures entries == map[] && latest == None && stored == []
    {
      entries := map[];
      latest := None;
      stored := [];
    }

    /**
     * Records a result under `key` and makes it the latest one. No entry is
     * ever removed; the other entries are untouched.
     */
    method Put(key: Key, buffer: seq<Byte>)
      requires Valid()
      modifies this
      ensures Valid()
      ensures entries == old(entries)[key := buffer]
      ensures latest == Some(key)
      ensures stored == old(stored) + [buffer]
      ensures old(entries).Keys <= entries.Keys
      ensures forall k :: k in old(entries) && k != key ==> entries[k] == old(entries)[k]
      ensures Processed() == Some(buffer)
    {
      entries := entries[key := buffer];
      latest := Some(key);
      stored := stored + [buffer];
    }

    /**
     * What `GET /processed` serves: the entry under the latest key, or `None`
     * for the 404 answer. A UUID string is never empty, so the truthiness test
     * on the key only tells `None` apart; `.get` yields `None` for a missing key.
     * In a valid store this is the most recently stored buffer, and `None`
     * exactly when nothing has been stored yet.
     */
    function Processed(): (r: Option<seq<Byte>>)
      reads this
      ensures Valid() ==> (r == None <==> stored == [])
      ensures Valid() && stored != [] ==> r == Some(stored[|stored| - 1])
    {
      match latest
      case None => None
      case Some(k) => if k in entries then Some(entries[k]) else None
    }
  }
}

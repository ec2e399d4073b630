/**
 The table of messages a client has already handled (ac-lib/msg.c). The hash table is a
 map from the text of a message to its purge time; the clock is an argument.
 */
module SeenTable {
  import opened Base64

  type Text = seq<byte>
  type Table = map<Text, int>

  const MESSAGE_PURGE_TIME := 30

  // client_hash_add_msg on a value; an existing entry is replaced.
  function Added(table: Table, text: Text, now: int): Table {
    table[text := now + MESSAGE_PURGE_TIME]
  }

  predicate PurgeMessage(purgeTime: int, now: int) {
    purgeTime <= now
  }

  // What a purge leaves: exactly the entries that have not expired.
  function Purged(table: Table, now: int): Table {
    map t | t in table && !PurgeMessage(table[t], now) :: table[t]
  }

  class MessageTable {
    var entries: Table

    constructor ()
      ensures entries == map[]
    {
      entries := map[];
    }

    method HashAddMsg(text: Text, now: int)
      modifies this
      ensures entries == Added(old(entries), text, now)
    {
      entries := entries[text := now + MESSAGE_PURGE_TIME];
    }

    predicate HasSeenMsg(text: Text)
      reads this
    {
      text in entries
    }

    // g_hash_table_foreach_remove: visits every entry once, in any order.
    method PurgeMsg(now: int) returns (removed: nat)
      modifies this
      ensures entries == Purged(old(entries), now)
      ensures removed == |old(entries)| - |entries|
    {
      ghost var before := entries;
      var todo := entries.Keys;
      removed := 0;
      while todo != {}
        invariant todo <= before.Keys
        invariant entries.Keys == set t | t in before && (t in todo || !PurgeMessage(before[t], now))
        invariant forall t :: t in entries ==> entries[t] == before[t]
        invariant removed == |before| - |entries|
        decreases |todo|
      {
        var t :| t in todo;
        todo := todo - {t};
        if PurgeMessage(entries[t], now) {
          RemoveOne(entries, t);
          entries := entries - {t};
          removed := removed + 1;
        }
      }
    }
  }

  lemma RemoveOne(table: Table, t: Text)
    requires t in table
    ensures |table - {t}| == |table| - 1
  {
    assert (table - {t}).Keys == table.Keys - {t};
  }
}

/**
 The table of seen messages as the code really keys it: by the caller's buffer, not by a copy
 of the text (ac-lib/msg.c:122). glib keeps the hash of a key from when it was inserted and
 compares the key's present contents. A client thread receives every text of one connection
 into one buffer, so what the table knows changes under it.

 `SeenTable`, with the text itself as the key, is what most of the model uses; `SameAsTexts`
 says when the two agree. `ConnectionFlood` is about floods with tables that know no more than
 `CheckAndInsert` ensures. The string that input_send_msg inserts and then frees is not
 modelled.
 */
module BufferKeys {
  import opened SeenTable

  // The buffer that a thread receives into.
  class Buffer {
    var text: Text

    constructor (text: Text)
      ensures this.text == text
    {
      this.text := text;
    }
  }

  datatype Slot = Slot(hash: nat, key: Buffer, purgeTime: int)

  predicate Matches(hash: Text -> nat, slot: Slot, text: Text)
    reads slot.key
  {
    slot.hash == hash(text) && slot.key.text == text
  }

  class BufferTable {
    const hash: Text -> nat
    var slots: seq<Slot>

    // What each slot's buffer held when it was inserted.
    ghost var texts: seq<Text>

    // In particular no text is inserted twice from one buffer.
    ghost predicate Valid()
      reads this
      ensures Valid() ==> |texts| == |slots|
    {
      && |texts| == |slots|
      && (forall k :: 0 <= k < |slots| ==> slots[k].hash == hash(texts[k]))
      && (forall i, j :: 0 <= i < j < |slots| && slots[i].key == slots[j].key ==> texts[i] != texts[j])
    }

    // Slot k was inserted with the text in q, from q itself or from a buffer that still has it.
    ghost predicate Knows(k: nat, q: Buffer)
      requires |texts| == |slots| && k < |slots|
      reads this, slots[k].key, q
    {
      texts[k] == q.text && (slots[k].key == q || slots[k].key.text == q.text)
    }

    constructor (hash: Text -> nat)
      ensures Valid() && slots == [] && this.hash == hash
    {
      this.hash, slots, texts := hash, [], [];
    }

    // g_hash_table_lookup: the first slot that matches, or none.
    method Lookup(text: Text) returns (k: nat)
      ensures k <= |slots|
      ensures k < |slots| ==> Matches(hash, slots[k], text)
      ensures forall j :: 0 <= j < k ==> !Matches(hash, slots[j], text)
    {
      k := 0;
      while k < |slots|
        invariant k <= |slots|
        invariant forall j :: 0 <= j < k ==> !Matches(hash, slots[j], text)
      {
        if Matches(hash, slots[k], text) {
          return;
        }
        k := k + 1;
      }
    }

    // The hash function tells the text from the others in the table.
    ghost predicate NoCollision(text: Text)
      reads this
    {
      forall k :: 0 <= k < |texts| && hash(texts[k]) == hash(text) ==> texts[k] == text
    }

    /** The stretch of client_parse_msg under mht_mutex, on the thread's buffer. Whatever the
        hash function, a text that was inserted from this buffer before, or from another one that
        still has it, is not new. If the hash function tells it from the other texts, those are
        all that are not new, so a text that was never inserted is. */
    method CheckAndInsert(q: Buffer, now: int) returns (isNew: bool)
      requires Valid()
      modifies this
      ensures Valid()
      ensures isNew ==> !old(exists k :: 0 <= k < |slots| && Knows(k, q))
      ensures !isNew && old(NoCollision(q.text)) ==> old(exists k :: 0 <= k < |slots| && Knows(k, q))
      ensures slots == if isNew then old(slots) + [Slot(hash(q.text), q, now + MESSAGE_PURGE_TIME)] else old(slots)
      ensures texts == if isNew then old(texts) + [q.text] else old(texts)
    {
      var k := Lookup(q.text);
      SeenThrough(q);
      if k < |slots| {
        return false;
      }
      slots := slots + [Slot(hash(q.text), q, now + MESSAGE_PURGE_TIME)];
      texts := texts + [q.text];
      return true;
    }

    lemma SeenThrough(q: Buffer)
      requires Valid()
      ensures forall k :: 0 <= k < |slots| && Knows(k, q) ==> Matches(hash, slots[k], q.text)
      ensures NoCollision(q.text) ==>
                forall k :: 0 <= k < |slots| && Matches(hash, slots[k], q.text) ==> Knows(k, q)
    {
    }

    // So the table is the one with the texts as keys as long as its buffers are not written to.
    lemma SameAsTexts(q: Buffer)
      requires Valid() && forall k :: 0 <= k < |slots| ==> slots[k].key.text == texts[k]
      ensures (exists k :: 0 <= k < |slots| && Knows(k, q)) <==> q.text in texts
    {
      if q.text in texts {
        var k :| 0 <= k < |texts| && texts[k] == q.text;
        assert Knows(k, q);
      }
    }
  }

  /** Two connections: the first delivers a and then b, the second a. The second a looks new,
      so a is handled twice; but not if it comes over the first connection again. */
  method ForgottenText(table: BufferTable, one: Buffer, two: Buffer, a: Text, b: Text, now: int)
      returns (fresh1: bool, fresh2: bool, fresh3: bool, fresh4: bool)
    requires table.Valid() && table.slots == [] && one != two
    requires table.hash(a) != table.hash(b)
    modifies table, one, two
    ensures fresh1 && fresh2 && fresh3 && !fresh4
  {
    hide BufferTable.Valid;
    one.text := a;
    fresh1 := table.CheckAndInsert(one, now);
    one.text := b;
    assert !table.Knows(0, one);
    fresh2 := table.CheckAndInsert(one, now);
    fresh3, fresh4 := ForgottenHalf(table, one, two, a, now);
  }

  method ForgottenHalf(table: BufferTable, one: Buffer, two: Buffer, a: Text, now: int)
      returns (fresh3: bool, fresh4: bool)
    requires table.Valid() && one != two && table.hash(a) != table.hash(one.text)
    requires |table.slots| == 2 && table.texts == [a, one.text]
    requires table.slots[0].key == table.slots[1].key == one
    modifies table, one, two
    ensures fresh3 && !fresh4
  {
    hide BufferTable.Valid;
    two.text := a;
    assert !table.Knows(0, two) && !table.Knows(1, two);
    fresh3 := table.CheckAndInsert(two, now);
    one.text := a;
    assert table.Knows(0, one);
    fresh4 := table.CheckAndInsert(one, now);
  }
}

/** The accumulator of src/analysisd/accumulator.c with its hash store, its counters and its table walk. */
module Accumulators {
  import opened Entities
  import opened Accumulation
  import opened Arrivals

  /** An event on its way through the accumulator. */
  class PendingEvent {
    const hostname: string
    const decoderName: Option<string>
    const id: Option<string>
    var fields: Fields

    constructor (hostname: string, decoderName: Option<string>, id: Option<string>, fields: Fields)
      ensures this.hostname == hostname && this.decoderName == decoderName && this.id == id && this.fields == fields
    {
      this.hostname, this.decoderName, this.id, this.fields := hostname, decoderName, id, fields;
    }
  }

  /** What `Accumulate` does with an event at the given clock readings. */
  function CallFor(lf: PendingEvent, purgeTime: int, now: int): Call
    reads lf`fields
  {
    CallOf(Arrival(lf.hostname, lf.decoderName, lf.id, lf.fields, purgeTime, now))
  }

  class Accumulator {
    const acmStore: OSHash<Stored>
    var lookups: int
    var purgeTs: int

    /** `Accumulate_Init`. */
    constructor (now: int)
      ensures fresh(acmStore) && Now() == State(map[], 0, now)
    {
      acmStore := new OSHash();
      lookups, purgeTs := 0, now;
    }

    ghost function Now(): State
      reads this`lookups, this`purgeTs, acmStore`table
    {
      State(acmStore.table, lookups, purgeTs)
    }

    /** `Accumulate_CleanUp`: the walk over the table deletes every outdated entry. */
    method AccumulateCleanUp(now: int)
      modifies this`lookups, this`purgeTs, acmStore`table
      ensures Now() == CleanUp(old(Now()), now)
    {
      lookups := lookups + 1;
      if lookups < PURGE_COUNT && purgeTs < now + PURGE_INTERVAL {
        return;
      }
      lookups := 0;
      purgeTs := now;
      var todo := acmStore.table.Keys;
      ghost var all := acmStore.table;
      while todo != {}
        invariant lookups == 0 && purgeTs == now && todo <= acmStore.table.Keys
        invariant forall k | k in acmStore.table :: k in all && acmStore.table[k] == all[k]
        invariant forall k | k in all :: k in acmStore.table || all[k].timestamp < now - EXPIRE_ELM
        invariant forall k | k in acmStore.table :: k in todo || all[k].timestamp >= now - EXPIRE_ELM
        decreases todo
      {
        var key :| key in todo;
        todo := todo - {key};
        if acmStore.table[key].timestamp < now - EXPIRE_ELM {
          var gone := acmStore.Delete(key);
        }
      }
      assert acmStore.table == Purged(all, now);
    }

    /** The seven calls of `acm_str_replace` on the event. */
    method FillEvent(lf: PendingEvent, stored: Fields)
      modifies lf`fields
      ensures lf.fields == Merged(old(lf.fields), stored)
    {
      lf.fields := lf.fields.(dstuser := Replaced(lf.fields.dstuser, stored.dstuser));
      lf.fields := lf.fields.(srcuser := Replaced(lf.fields.srcuser, stored.srcuser));
      lf.fields := lf.fields.(dstip := Replaced(lf.fields.dstip, stored.dstip));
      lf.fields := lf.fields.(srcip := Replaced(lf.fields.srcip, stored.srcip));
      lf.fields := lf.fields.(dstport := Replaced(lf.fields.dstport, stored.dstport));
      lf.fields := lf.fields.(srcport := Replaced(lf.fields.srcport, stored.srcport));
      lf.fields := lf.fields.(data := Replaced(lf.fields.data, stored.data));
    }

    /** `Accumulate`. */
    method Accumulate(lf: PendingEvent, purgeTime: int, now: int)
      modifies this`lookups, this`purgeTs, acmStore`table, lf`fields
      ensures Now() == Next(old(Now()), old(CallFor(lf, purgeTime, now)), true)
      ensures lf.fields == Result(old(Now()), old(CallFor(lf, purgeTime, now)), true)
    {
      if lf.id == None {
        return;
      }
      if lf.decoderName == None {
        return;
      }
      AccumulateCleanUp(purgeTime);
      var key := lf.hostname + " " + lf.decoderName.value + " " + lf.id.value;
      if |key| >= MAXKEY {
        return;
      }
      ghost var store := acmStore.table;
      var doUpdate := false;
      var storedData := Stored(0, EMPTY);
      var found := acmStore.Lookup(key);
      if found.Some? {
        storedData := found.value;
        if storedData.timestamp > 0 && storedData.timestamp < now - EXPIRE_ELM {
          var gone := acmStore.Delete(key);
          storedData := Stored(0, EMPTY);
        } else {
          doUpdate := true;
          FillEvent(lf, storedData.fields);
        }
      }
      assert storedData.fields == Known(store, key, now);
      assert lf.fields == Output(store, key, now, old(lf.fields)) by {
        MergeNothing(old(lf.fields));
      }
      storedData := Stored(now, Merged(storedData.fields, lf.fields));
      if doUpdate {
        var result := acmStore.Update(key, storedData);
      } else {
        var result := acmStore.Add(key, storedData);
      }
      assert acmStore.table == store[key := storedData];
    }
  }

  lemma MergeNothing(f: Fields)
    ensures Merged(f, EMPTY) == f
  {
  }
}

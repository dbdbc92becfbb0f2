/** The tracker's call-site table: linear search, drop-new when full. */
module Hotspots {
  import opened Words
  import opened KeyHistory

  class HotspotTable {
    const table: array<Entry>
    var used: nat
    var drops: nat
    ghost var history: seq<Hit>

    ghost predicate Valid()
      reads this, table
    {
      && used <= table.Length
      && table[..used] == Summaries(history, Kept(history, table.Length))
      && drops == Missed(history, Kept(history, table.Length))
    }

    constructor (capacity: nat)
      ensures Valid() && history == [] && fresh(table) && table.Length == capacity
    {
      table := new Entry[capacity](_ => ZERO_ENTRY);
      used, drops, history := 0, 0, [];
    }

    method Init()
      modifies this, table
      ensures Valid() && history == []
    {
      for i := 0 to table.Length {
        table[i] := ZERO_ENTRY;
      }
      used, drops, history := 0, 0, [];
    }

    method Record(fileId: U32, line: U16, size: U32, seqNo: nat)
      requires Valid()
      modifies this, table
      ensures Valid() && history == old(history) + [Hit(Key(fileId, line), size, seqNo)]
    {
      ghost var x := Hit(Key(fileId, line), size, seqNo);
      ghost var h := history;
      ghost var ks := Kept(h, table.Length);
      history := h + [x];
      for i := 0 to used
        invariant forall j :: 0 <= j < i ==> ks[j] != x.key
      {
        assert table[..used][i].key == ks[i];
        if table[i].used && table[i].key.fileId == fileId && table[i].key.line == line {
          KeptListed(h, x, table.Length, i);
          Bump(i, size, seqNo);
          return;
        }
      }
      assert x.key !in ks;
      if used < table.Length {
        KeptNew(h, x, table.Length);
        table[used] := Entry(Key(fileId, line), true, 1, size, seqNo);
        used := used + 1;
        return;
      }
      KeptFull(h, x, table.Length);
      drops := drops + 1;
    }

    method Bump(i: nat, size: U32, seqNo: nat)
      requires i < used <= table.Length
      modifies table
      ensures table[..used]
           == old(table[..used])[i := KeyHistory.Bump(old(table[i]), Hit(old(table[i]).key, size, seqNo))]
    {
      table[i] := table[i].(allocs := table[i].allocs + 1,
                            bytes := (table[i].bytes + size) % TWO_32,
                            lastSeq := seqNo);
    }
  }
}

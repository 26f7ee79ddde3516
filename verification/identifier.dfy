/**
  The device-name table (`get_pico_identifier`): the name starts as
  "UFO-Pico" and each table entry, in order, overwrites it when
  `strncmp(id, entry, strlen(id)) == 0`. That comparison holds exactly when
  `id` is a prefix of the entry, so a short id can match several entries and
  the last of them wins; the empty id matches all of them.
 */
module Identifier {
  import opened CStrings
  import UniqueId

  const Unknown: string := "UFO-Pico"

  /** The active entries, in source order. */
  const Table: seq<(string, string)> := [
    ("E661-6408-4329-6029", "Atelier"),
    ("E661-6408-4323-8B29", "BureauM"),
    ("E661-6408-4337-9121", "ChambreA"),
    ("E661-4103-E770-1B25", "Cuisine"),
    ("E661-6408-434B-7A22", "Dining"),
    ("E661-6408-4329-202D", "Lounge"),
    ("E661-4103-E74E-9221", "MQTTControl"),
    ("E661-4103-E72C-2423", "MQTTSensor1"),
    ("E661-6408-434A-0826", "OfficeLong"),
    ("E661-6408-437C-B024", "OfficeMain"),
    ("E661-6408-433D-3127", "Raymonde")
  ]

  /** `strncmp(a, b, n) == 0` on C strings: the first `n` bytes agree, where
      the comparison stops early at a terminator both strings share. */
  predicate StrNEqual(a: string, b: string, n: nat)
    requires Nul !in a && Nul !in b
    decreases n
  {
    n == 0 || (At(a, 0) == At(b, 0) && (At(a, 0) == Nul || StrNEqual(a[1..], b[1..], n - 1)))
  }

  /** With `n = strlen(a)` the comparison is a prefix test. */
  lemma {:induction false} StrNEqualIsPrefix(a: string, b: string)
    requires Nul !in a && Nul !in b
    ensures StrNEqual(a, b, |a|) <==> a <= b
    decreases |a|
  {
    if a != [] {
      if At(a, 0) == At(b, 0) {
        StrNEqualIsPrefix(a[1..], b[1..]);
        assert a <= b <==> a[1..] <= b[1..];
      }
    }
  }

  /** Entry `k` matches `id`. */
  predicate Matches(id: string, k: nat)
    requires Nul !in id && k < |Table|
  {
    StrNEqual(id, Table[k].0, |id|)
  }

  /** The name after the entries `k ..` have been tried, `name` being the
      name after the earlier ones. */
  function LookupFrom(id: string, k: nat, name: string): (r: string)
    requires Nul !in id && k <= |Table|
    ensures r == name || exists j :: k <= j < |Table| && Matches(id, j) && r == Table[j].1
    decreases |Table| - k
  {
    if k == |Table| then name
    else LookupFrom(id, k + 1, if Matches(id, k) then Table[k].1 else name)
  }

  function Lookup(id: string): (r: string)
    requires Nul !in id
    ensures r == Unknown || exists j :: 0 <= j < |Table| && Matches(id, j) && r == Table[j].1
  {
    LookupFrom(id, 0, Unknown)
  }

  lemma TableHasNoNul()
    ensures forall k :: 0 <= k < |Table| ==> Nul !in Table[k].0
  {
  }

  /** With no matching entry from `k` on, the name stays as it is. */
  lemma {:induction false} LookupFromNoMatch(id: string, k: nat, name: string)
    requires Nul !in id && k <= |Table|
    requires forall j :: k <= j < |Table| ==> !Matches(id, j)
    ensures LookupFrom(id, k, name) == name
    decreases |Table| - k
  {
    if k < |Table| {
      LookupFromNoMatch(id, k + 1, name);
    }
  }

  /** The last matching entry from `k` on gives the name. */
  lemma {:induction false} LookupFromLastMatch(id: string, k: nat, name: string, j: nat)
    requires Nul !in id && k <= j < |Table|
    requires Matches(id, j) && forall i :: j < i < |Table| ==> !Matches(id, i)
    ensures LookupFrom(id, k, name) == Table[j].1
    decreases |Table| - k
  {
    var next := if Matches(id, k) then Table[k].1 else name;
    assert LookupFrom(id, k, name) == LookupFrom(id, k + 1, next);
    if k < j {
      LookupFromLastMatch(id, k + 1, next, j);
    } else {
      LookupFromNoMatch(id, k + 1, next);
    }
  }

  /** The name is that of the last entry `id` is a prefix of, or "UFO-Pico"
      when there is none. */
  lemma LookupIsLastPrefixMatch(id: string)
    requires Nul !in id
    ensures (forall j :: 0 <= j < |Table| ==> !(id <= Table[j].0)) ==> Lookup(id) == Unknown
    ensures forall j | 0 <= j < |Table| && id <= Table[j].0 && (forall i :: j < i < |Table| ==> !(id <= Table[i].0)) ::
      Lookup(id) == Table[j].1
  {
    TableHasNoNul();
    forall j | 0 <= j < |Table|
      ensures Matches(id, j) <==> id <= Table[j].0
    {
      StrNEqualIsPrefix(id, Table[j].0);
    }
    if forall j :: 0 <= j < |Table| ==> !Matches(id, j) {
      LookupFromNoMatch(id, 0, Unknown);
    }
    forall j | 0 <= j < |Table| && id <= Table[j].0 && (forall i :: j < i < |Table| ==> !(id <= Table[i].0))
      ensures Lookup(id) == Table[j].1
    {
      LookupFromLastMatch(id, 0, Unknown, j);
    }
  }

  /** "UFO-Pico" comes out exactly when no entry matches. */
  lemma UnknownIffNoMatch(id: string)
    requires Nul !in id
    ensures Lookup(id) == Unknown <==> forall j :: 0 <= j < |Table| ==> !(id <= Table[j].0)
  {
    LookupIsLastPrefixMatch(id);
    if exists j :: 0 <= j < |Table| && id <= Table[j].0 {
      var j :| 0 <= j < |Table| && id <= Table[j].0;
      while exists i :: j < i < |Table| && id <= Table[i].0
        invariant 0 <= j < |Table| && id <= Table[j].0
        decreases |Table| - j
      {
        var i :| j < i < |Table| && id <= Table[i].0;
        j := i;
      }
      NamesKnown();
    }
  }

  /** No entry carries the fallback name. */
  lemma NamesKnown()
    ensures forall k :: 0 <= k < |Table| ==> Table[k].1 != Unknown
  {
  }

  /** Every entry is a full 19-character rendered id, and no two are alike. */
  lemma TableShape()
    ensures forall k :: 0 <= k < |Table| ==> |Table[k].0| == UniqueId.IdLength
    ensures forall j, k :: 0 <= j < k < |Table| ==> Table[j].0 != Table[k].0
  {
  }

  /** A full-length id names at most one entry, and a longer one none. */
  lemma FullIdMatchesAtMostOne(id: string)
    requires |id| >= UniqueId.IdLength
    ensures forall j, k :: 0 <= j < |Table| && 0 <= k < |Table| && id <= Table[j].0 && id <= Table[k].0 ==> j == k
    ensures |id| > UniqueId.IdLength ==> forall j :: 0 <= j < |Table| ==> !(id <= Table[j].0)
  {
    TableShape();
  }

  /** A partial id shared by two entries gets the later one's name. */
  lemma LaterEntryWins(id: string)
    requires id == "E661-6408-4329"
    ensures Lookup(id) == "Lounge"
  {
    assert id <= Table[5].0;
    assert forall i :: 5 < i < |Table| ==> !(id <= Table[i].0) by {
      forall i | 5 < i < |Table|
        ensures !(id <= Table[i].0)
      {
        if i <= 7 {
          assert Table[i].0[5] != id[5];
        } else {
          assert Table[i].0[12] != id[12];
        }
      }
    }
    LookupIsLastPrefixMatch(id);
  }

  /** The empty id matches every entry and gets the last name. */
  lemma EmptyIdGetsLastName(id: string)
    requires id == []
    ensures Lookup(id) == "Raymonde"
  {
    LookupIsLastPrefixMatch(id);
  }

  /** The commented-out entry has no effect: its id is unknown. */
  lemma RetiredEntryUnknown(id: string)
    requires id == "E661-6408-4382-772E"
    ensures Lookup(id) == Unknown
  {
    TableShape();
    forall j | 0 <= j < |Table|
      ensures !(id <= Table[j].0)
    {
      assert Table[j].0 != id;
    }
    LookupIsLastPrefixMatch(id);
  }

  /** The id `get_pico_unique_id` renders names at most one entry. */
  lemma RenderedIdNamesAtMostOne(bytes: seq<Byte>)
    requires |bytes| == UniqueId.IdSize
    ensures var id := UniqueId.Render(bytes);
      forall j, k :: 0 <= j < |Table| && 0 <= k < |Table| && id <= Table[j].0 && id <= Table[k].0 ==> j == k
  {
    UniqueId.RenderShape(bytes);
    FullIdMatchesAtMostOne(UniqueId.Render(bytes));
  }
}

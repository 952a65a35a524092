/** The ranking of addresses against what was typed (apps/webui-static/coden-view-model.js:509-537). */
module Addresses {
  import opened Options
  import opened Sorting
  import opened Text

  /** `title` is the label of the entry. */
  datatype Address = Address(id: int, address: string, title: string)

  datatype Hit = Hit(entry: Address, rank: nat)

  predicate Contains(s: string, t: string) {
    exists i :: 0 <= i <= |s| && t <= s[i..]
  }

  function StripSlashes(s: string): string {
    if s != "" && s[0] == '/' then StripSlashes(s[1..]) else s
  }

  /** What is looked for; `lower` is the case folding of the reader's platform. */
  function Wanted(query: string, lower: string -> string): string {
    lower(Trim(StripSlashes(query)))
  }

  function Rank(entry: Address, wanted: string, lower: string -> string): Option<nat> {
    var address := lower(entry.address);
    if wanted <= address then Some(0)
    else if Contains(address, wanted) then Some(1)
    else if Contains(lower(entry.title), wanted) then Some(2)
    else None
  }

  function Hits(addresses: seq<Address>, wanted: string, lower: string -> string): seq<Hit> {
    if addresses == [] then []
    else
      var rank := Rank(addresses[0], wanted, lower);
      (if rank.Some? then [Hit(addresses[0], rank.value)] else []) + Hits(addresses[1..], wanted, lower)
  }

  predicate RankLe(a: Hit, b: Hit) {
    a.rank <= b.rank
  }

  function Entries(hits: seq<Hit>): seq<Address> {
    if hits == [] then [] else [hits[0].entry] + Entries(hits[1..])
  }

  function MatchAddresses(addresses: seq<Address>, query: string, lower: string -> string): seq<Address> {
    var wanted := Wanted(query, lower);
    if wanted == "" then addresses else Entries(Sort(Hits(addresses, wanted, lower), RankLe))
  }

  // ---- The ranks in turn ----

  function Ranked(rank: nat): Hit -> bool {
    (h: Hit) => h.rank == rank
  }

  function OfRank(rank: nat, wanted: string, lower: string -> string): Address -> bool {
    (e: Address) => Rank(e, wanted, lower) == Some(rank)
  }

  lemma {:induction false} HitsHaveRanks(addresses: seq<Address>, wanted: string, lower: string -> string)
    ensures forall h <- Hits(addresses, wanted, lower) :: h.rank <= 2
  {
    if addresses != [] {
      HitsHaveRanks(addresses[1..], wanted, lower);
    }
  }

  lemma {:induction false} EntriesConcat(a: seq<Hit>, b: seq<Hit>)
    ensures Entries(a + b) == Entries(a) + Entries(b)
  {
    if a == [] {
      assert a + b == b;
    } else {
      calc {
        Entries(a + b);
        { assert (a + b)[0] == a[0] && (a + b)[1..] == a[1..] + b; }
        [a[0].entry] + Entries(a[1..] + b);
        { EntriesConcat(a[1..], b); }
        [a[0].entry] + (Entries(a[1..]) + Entries(b));
        Entries(a) + Entries(b);
      }
    }
  }

  lemma {:induction false} EntriesOfRank(addresses: seq<Address>, wanted: string, lower: string -> string, rank: nat)
    ensures Entries(Filter(Hits(addresses, wanted, lower), Ranked(rank)))
         == Filter(addresses, OfRank(rank, wanted, lower))
  {
    if addresses != [] {
      EntriesOfRank(addresses[1..], wanted, lower, rank);
      var r := Rank(addresses[0], wanted, lower);
      var head := if r.Some? then [Hit(addresses[0], r.value)] else [];
      FilterConcat(head, Hits(addresses[1..], wanted, lower), Ranked(rank));
      EntriesConcat(Filter(head, Ranked(rank)), Filter(Hits(addresses[1..], wanted, lower), Ranked(rank)));
    }
  }

  lemma ClassIsRank(k: Hit, h: Hit)
    ensures Class(k, RankLe)(h) <==> h.rank == k.rank
  {
    assert Class(k, RankLe)(h) == (RankLe(k, h) && RankLe(h, k));
  }

  /** Filtering the concatenation of the ranks by a class gives that rank back. */
  lemma RanksByClass(hits: seq<Hit>, k: Hit)
    requires forall h <- hits :: h.rank <= 2
    ensures Filter(Filter(hits, Ranked(0)) + Filter(hits, Ranked(1)) + Filter(hits, Ranked(2)), Class(k, RankLe))
         == Filter(hits, Class(k, RankLe))
  {
    var a, b, c := Filter(hits, Ranked(0)), Filter(hits, Ranked(1)), Filter(hits, Ranked(2));
    FilterConcat(a + b, c, Class(k, RankLe));
    FilterConcat(a, b, Class(k, RankLe));
    RankByClass(hits, 0, k);
    RankByClass(hits, 1, k);
    RankByClass(hits, 2, k);
    if k.rank > 2 {
      forall h ensures Class(k, RankLe)(h) <==> h.rank == k.rank { ClassIsRank(k, h); }
      FilterNone(hits, Class(k, RankLe));
    }
  }

  lemma RankByClass(hits: seq<Hit>, rank: nat, k: Hit)
    ensures Filter(Filter(hits, Ranked(rank)), Class(k, RankLe))
         == if k.rank == rank then Filter(hits, Class(k, RankLe)) else []
  {
    var part := Filter(hits, Ranked(rank));
    forall h ensures Class(k, RankLe)(h) <==> h.rank == k.rank { ClassIsRank(k, h); }
    if k.rank == rank {
      FilterTwice(hits, Ranked(rank), Class(k, RankLe), Class(k, RankLe));
    } else {
      forall h | h in part ensures !Class(k, RankLe)(h) { FilterMember(hits, Ranked(rank), h); }
      FilterNone(part, Class(k, RankLe));
    }
  }

  lemma RanksAreSorted(hits: seq<Hit>)
    ensures Sorted(Filter(hits, Ranked(0)) + Filter(hits, Ranked(1)) + Filter(hits, Ranked(2)), RankLe)
  {
    var a, b, c := Filter(hits, Ranked(0)), Filter(hits, Ranked(1)), Filter(hits, Ranked(2));
    forall i | 0 <= i < |a| ensures a[i].rank == 0 { FilterMember(hits, Ranked(0), a[i]); }
    forall i | 0 <= i < |b| ensures b[i].rank == 1 { FilterMember(hits, Ranked(1), b[i]); }
    forall i | 0 <= i < |c| ensures c[i].rank == 2 { FilterMember(hits, Ranked(2), c[i]); }
  }

  /**
   The result is the addresses that start with what was typed, then those that contain it, then those whose label
   does, each in the order they were given; with nothing typed it is all of them.
   */
  lemma MatchIsRanksInTurn(addresses: seq<Address>, query: string, lower: string -> string)
    ensures var wanted := Wanted(query, lower);
            MatchAddresses(addresses, query, lower) ==
            if wanted == "" then addresses
            else Filter(addresses, OfRank(0, wanted, lower)) + Filter(addresses, OfRank(1, wanted, lower))
                 + Filter(addresses, OfRank(2, wanted, lower))
  {
    var wanted := Wanted(query, lower);
    var hits := Hits(addresses, wanted, lower);
    var a, b, c := Filter(hits, Ranked(0)), Filter(hits, Ranked(1)), Filter(hits, Ranked(2));
    HitsHaveRanks(addresses, wanted, lower);
    RanksAreSorted(hits);
    forall k ensures Filter(a + b + c, Class(k, RankLe)) == Filter(hits, Class(k, RankLe)) { RanksByClass(hits, k); }
    StableSortIsUnique(a + b + c, hits, RankLe);
    EntriesConcat(a + b, c);
    EntriesConcat(a, b);
    EntriesOfRank(addresses, wanted, lower, 0);
    EntriesOfRank(addresses, wanted, lower, 1);
    EntriesOfRank(addresses, wanted, lower, 2);
  }

  // ---- The same in terms of the texts alone ----

  /** `t` stands somewhere in `s`. */
  ghost predicate Within(t: string, s: string) {
    exists before, after :: s == before + t + after
  }

  lemma ContainsExactly(s: string, t: string)
    ensures Contains(s, t) <==> Within(t, s)
  {
    if i :| 0 <= i <= |s| && t <= s[i..] {
      assert s == s[..i] + t + s[i + |t|..];
    }
    if before, after :| s == before + t + after {
      assert s[|before|..] == t + after;
    }
  }

  lemma {:induction false} SlashesStripped(s: string) returns (slashes: string)
    ensures s == slashes + StripSlashes(s) && forall i :: 0 <= i < |slashes| ==> slashes[i] == '/'
    ensures StripSlashes(s) == "" || StripSlashes(s)[0] != '/'
  {
    slashes := "";
    if s != "" && s[0] == '/' {
      var rest := SlashesStripped(s[1..]);
      slashes := ['/'] + rest;
    }
  }

  /** What is looked for is what was typed, without slashes in front, trimmed, folded. */
  lemma WantedExactly(query: string, lower: string -> string)
    ensures exists slashes, rest ::
              && query == slashes + rest && (forall i :: 0 <= i < |slashes| ==> slashes[i] == '/')
              && (rest == "" || rest[0] != '/') && Wanted(query, lower) == lower(Trim(rest))
  {
    var slashes := SlashesStripped(query);
    assert query == slashes + StripSlashes(query);
  }

  ghost function Starting(wanted: string, lower: string -> string): Address -> bool {
    (e: Address) => wanted <= lower(e.address)
  }

  ghost function Containing(wanted: string, lower: string -> string): Address -> bool {
    (e: Address) => !(wanted <= lower(e.address)) && Within(wanted, lower(e.address))
  }

  ghost function Labelled(wanted: string, lower: string -> string): Address -> bool {
    (e: Address) => !Within(wanted, lower(e.address)) && Within(wanted, lower(e.title))
  }

  /** The three groups and their order, with nothing in them but the texts. */
  lemma MatchExactly(addresses: seq<Address>, query: string, lower: string -> string)
    requires Wanted(query, lower) != ""
    ensures var wanted := Wanted(query, lower);
            MatchAddresses(addresses, query, lower)
            == Filter(addresses, Starting(wanted, lower)) + Filter(addresses, Containing(wanted, lower))
               + Filter(addresses, Labelled(wanted, lower))
  {
    var wanted := Wanted(query, lower);
    MatchIsRanksInTurn(addresses, query, lower);
    forall e: Address
      ensures OfRank(0, wanted, lower)(e) == Starting(wanted, lower)(e)
      ensures OfRank(1, wanted, lower)(e) == Containing(wanted, lower)(e)
      ensures OfRank(2, wanted, lower)(e) == Labelled(wanted, lower)(e)
    {
      ContainsExactly(lower(e.address), wanted);
      ContainsExactly(lower(e.title), wanted);
      if wanted <= lower(e.address) { PrefixWithin(wanted, lower(e.address)); }
    }
    FilterAgrees(addresses, OfRank(0, wanted, lower), Starting(wanted, lower));
    FilterAgrees(addresses, OfRank(1, wanted, lower), Containing(wanted, lower));
    FilterAgrees(addresses, OfRank(2, wanted, lower), Labelled(wanted, lower));
  }

  lemma PrefixWithin(t: string, s: string)
    requires t <= s
    ensures Within(t, s)
  {
    assert s == "" + t + s[|t|..];
  }
}

/**
 `downloadProjects`: the newest listing hits and the batch-lookup records are
 joined into the entries shown on the page, most recently approved first.
 Timestamps are whole milliseconds.
 */
module Projects {
  import opened Wrappers
  import opened Seqs

  /** The icon shown when a project has no usable icon of its own. */
  const Placeholder: string := "https://placehold.co/64x64/d1d5db/374151?text=Mod"

  /** One hit of the listing call: an id and an icon URL that may be absent. */
  datatype Hit = Hit(projectId: string, iconUrl: Option<string>)

  /** One record of the batch-lookup call. */
  datatype Project = Project(id: string, title: string, approved: int, queued: int)

  /** One entry of the result, with its approval delay. */
  datatype Entry = Entry(id: string, title: string, iconUrl: string, approved: int, queued: int, delay: int) {
    /** The lookup record this entry was made from. */
    function Source(): Project {
      Project(id, title, approved, queued)
    }
  }

  /** The failure of an API call, carrying the HTTP status text. */
  datatype ApiError = RequestFailed(message: string)

  /** An HTTP response whose JSON body has already been decoded. */
  datatype Response<T> = Response(ok: bool, statusText: string, body: T)

  /** `api`: a non-success status becomes an error; otherwise the body. */
  function Api<T>(response: Response<T>): (r: Result<T, ApiError>)
    ensures r.Failure? <==> !response.ok
    ensures r.Success? ==> r.value == response.body
    ensures r.Failure? ==> r.error.message == "API call failed: " + response.statusText
  {
    if !response.ok then Failure(RequestFailed("API call failed: " + response.statusText))
    else Success(response.body)
  }

  /** The ids of the hits, in listing order. */
  function HitIds(hits: seq<Hit>): (ids: seq<string>)
    ensures |ids| == |hits|
    ensures forall i :: 0 <= i < |hits| ==> ids[i] == hits[i].projectId
  {
    seq(|hits|, i requires 0 <= i < |hits| => hits[i].projectId)
  }

  /** The ids that occur among the hits. */
  function Ids(hits: seq<Hit>): set<string> {
    set h | h in hits :: h.projectId
  }

  /** A new last hit adds its id to the ids of the earlier ones. */
  lemma IdsOfSnoc(hits: seq<Hit>)
    requires |hits| > 0
    ensures Ids(hits) == Ids(hits[..|hits| - 1]) + {hits[|hits| - 1].projectId}
  {
    assert hits == hits[..|hits| - 1] + [hits[|hits| - 1]];
  }

  /** No later hit shares the id of hit `i`. */
  predicate IsLastHit(hits: seq<Hit>, i: int) {
    0 <= i < |hits| && forall j :: i < j < |hits| ==> hits[j].projectId != hits[i].projectId
  }

  /**
   `m` is the icon map of the hits: its keys are exactly the ids of the hits,
   and each id maps to the icon of the last hit that has it.
   */
  predicate IsIconMapOf(hits: seq<Hit>, m: map<string, Option<string>>) {
    && m.Keys == Ids(hits)
    && forall i :: 0 <= i < |hits| && IsLastHit(hits, i) ==> hits[i].projectId in m && m[hits[i].projectId] == hits[i].iconUrl
  }

  /**
   The icon map built from the hits in listing order: each hit enters its id
   and icon, so a later hit with the same id overwrites an earlier one.
   */
  function IconMap(hits: seq<Hit>): (m: map<string, Option<string>>)
    ensures IsIconMapOf(hits, m)
    decreases |hits|
  {
    if |hits| == 0 then map[]
    else
      var n := |hits| - 1;
      var m := IconMap(hits[..n])[hits[n].projectId := hits[n].iconUrl];
      IconMapExtend(hits, IconMap(hits[..n]));
      m
  }

  /** Entering the last hit into the icon map of the earlier ones. */
  lemma IconMapExtend(hits: seq<Hit>, m0: map<string, Option<string>>)
    requires |hits| > 0
    requires IsIconMapOf(hits[..|hits| - 1], m0)
    ensures IsIconMapOf(hits, m0[hits[|hits| - 1].projectId := hits[|hits| - 1].iconUrl])
  {
    var n := |hits| - 1;
    var last, earlier := hits[n], hits[..n];
    var m := m0[last.projectId := last.iconUrl];
    IdsOfSnoc(hits);
    forall i | IsLastHit(hits, i)
      ensures hits[i].projectId in m && m[hits[i].projectId] == hits[i].iconUrl
    {
      if i < n {
        assert IsLastHit(earlier, i) by {
          assert earlier[i] == hits[i];
        }
        assert hits[i].projectId != last.projectId;
      }
    }
  }

  /** A present, non-empty icon URL: what `||` treats as truthy. */
  predicate Truthy(icon: Option<string>) {
    icon.Some? && icon.value != ""
  }

  /**
   The icon an entry shows: the mapped icon when it is truthy; a missing id,
   an absent icon and an empty icon all give the placeholder.
   */
  function ResolveIcon(icons: map<string, Option<string>>, id: string): (icon: string)
    ensures icon != ""
    ensures id in icons && Truthy(icons[id]) ==> Some(icon) == icons[id]
    ensures !(id in icons && Truthy(icons[id])) ==> icon == Placeholder
  {
    if id in icons && Truthy(icons[id]) then icons[id].value else Placeholder
  }

  /** Approval times never increase along `s`. */
  predicate SortedByApproval(s: seq<Project>) {
    forall i, j :: 0 <= i < j < |s| ==> s[i].approved >= s[j].approved
  }

  /** The records of `s` approved at time `t`, in their order in `s`. */
  function ApprovedAt(s: seq<Project>, t: int): (r: seq<Project>)
    ensures |r| <= |s|
    ensures forall i :: 0 <= i < |r| ==> r[i].approved == t
    decreases |s|
  {
    if |s| == 0 then []
    else ApprovedAt(s[..|s| - 1], t) + if s[|s| - 1].approved == t then [s[|s| - 1]] else []
  }

  lemma SortedTail(s: seq<Project>)
    requires SortedByApproval(s) && |s| > 0
    ensures SortedByApproval(s[1..])
  {
    forall i, j | 0 <= i < j < |s| - 1
      ensures s[1..][i].approved >= s[1..][j].approved
    {
      assert s[1..][i] == s[i + 1] && s[1..][j] == s[j + 1];
    }
  }

  lemma SortedPrefix(s: seq<Project>, n: int)
    requires SortedByApproval(s) && 0 <= n <= |s|
    ensures SortedByApproval(s[..n])
  {
  }

  /**
   Inserts `p` into a sorted sequence just before the first record approved
   strictly earlier than `p`, so after every record approved at the same time.
   */
  function Insert(s: seq<Project>, p: Project): (r: seq<Project>)
    ensures |r| == |s| + 1
    ensures multiset(r) == multiset(s) + multiset{p}
    decreases |s|
  {
    if |s| == 0 then [p]
    else if s[0].approved >= p.approved then
      assert s == [s[0]] + s[1..];
      [s[0]] + Insert(s[1..], p)
    else [p] + s
  }

  /** Inserting into a sorted sequence keeps it sorted. */
  lemma {:induction false} InsertKeepsSorted(s: seq<Project>, p: Project)
    requires SortedByApproval(s)
    ensures SortedByApproval(Insert(s, p))
    decreases |s|
  {
    if |s| > 0 && s[0].approved >= p.approved {
      var rest := Insert(s[1..], p);
      assert SortedByApproval(rest) by {
        SortedTail(s);
        InsertKeepsSorted(s[1..], p);
      }
      InsertBelow(s[1..], p, s[0].approved);
      ConsKeepsSorted(s[0], rest);
    }
  }

  /** A record no earlier than any of a sorted sequence can go in front of it. */
  lemma ConsKeepsSorted(h: Project, rest: seq<Project>)
    requires SortedByApproval(rest)
    requires forall k :: 0 <= k < |rest| ==> rest[k].approved <= h.approved
    ensures SortedByApproval([h] + rest)
  {
    var r := [h] + rest;
    forall i, j | 0 <= i < j < |r|
      ensures r[i].approved >= r[j].approved
    {
      assert r[j] == rest[j - 1];
      if i > 0 {
        assert r[i] == rest[i - 1];
      }
    }
  }

  /** Inserting a record no later than `v` among such records keeps every record no later than `v`. */
  lemma {:induction false} InsertBelow(s: seq<Project>, p: Project, v: int)
    requires forall k :: 0 <= k < |s| ==> s[k].approved <= v
    requires p.approved <= v
    ensures forall k :: 0 <= k < |Insert(s, p)| ==> Insert(s, p)[k].approved <= v
    decreases |s|
  {
    if |s| > 0 && s[0].approved >= p.approved {
      InsertBelow(s[1..], p, v);
    }
  }

  lemma {:induction false} ApprovedAtConcat(a: seq<Project>, b: seq<Project>, t: int)
    ensures ApprovedAt(a + b, t) == ApprovedAt(a, t) + ApprovedAt(b, t)
    decreases |b|
  {
    if |b| == 0 {
      assert a + b == a;
    } else {
      var n := |b| - 1;
      assert (a + b)[..|a + b| - 1] == a + b[..n];
      ApprovedAtConcat(a, b[..n], t);
    }
  }

  lemma {:induction false} ApprovedAtNone(s: seq<Project>, t: int)
    requires forall i :: 0 <= i < |s| ==> s[i].approved != t
    ensures ApprovedAt(s, t) == []
    decreases |s|
  {
    if |s| > 0 {
      ApprovedAtNone(s[..|s| - 1], t);
    }
  }

  /** Inserting `p` appends it to the records approved at its own time. */
  lemma {:induction false} InsertApprovedAt(s: seq<Project>, p: Project, t: int)
    requires SortedByApproval(s)
    ensures ApprovedAt(Insert(s, p), t) == ApprovedAt(s, t) + if p.approved == t then [p] else []
    decreases |s|, 1
  {
    if |s| == 0 {
      assert [p][..0] == [];
    } else if s[0].approved >= p.approved {
      InsertBehindHead(s, p, t);
    } else {
      InsertInFront(s, p, t);
    }
  }

  /** The case where `p` goes behind the first record. */
  lemma {:induction false} InsertBehindHead(s: seq<Project>, p: Project, t: int)
    requires SortedByApproval(s)
    requires |s| > 0 && s[0].approved >= p.approved
    ensures ApprovedAt(Insert(s, p), t) == ApprovedAt(s, t) + if p.approved == t then [p] else []
    decreases |s|, 0
  {
    var h, tail := s[0], s[1..];
    var own := if h.approved == t then [h] else [];
    var added := if p.approved == t then [p] else [];
    assert ApprovedAt(Insert(tail, p), t) == ApprovedAt(tail, t) + added by {
      SortedTail(s);
      InsertApprovedAt(tail, p, t);
    }
    ApprovedAtCons(h, Insert(tail, p), t);
    assert ApprovedAt(s, t) == own + ApprovedAt(tail, t) by {
      ConsSplit(s);
      ApprovedAtCons(h, tail, t);
    }
    ConcatAssociates(own, ApprovedAt(tail, t), added);
  }

  /** A record in front contributes itself, when at time `t`, ahead of the rest. */
  lemma ApprovedAtCons(h: Project, rest: seq<Project>, t: int)
    ensures ApprovedAt([h] + rest, t) == (if h.approved == t then [h] else []) + ApprovedAt(rest, t)
  {
    ApprovedAtConcat([h], rest, t);
    assert [h][..0] == [];
  }

  /** The case where `p` goes in front of every record. */
  lemma {:induction false} InsertInFront(s: seq<Project>, p: Project, t: int)
    requires SortedByApproval(s)
    requires |s| > 0 && s[0].approved < p.approved
    ensures ApprovedAt(Insert(s, p), t) == ApprovedAt(s, t) + if p.approved == t then [p] else []
  {
    ApprovedAtCons(p, s, t);
    if p.approved == t {
      assert ApprovedAt(s, t) == [] by {
        assert forall i :: 0 <= i < |s| ==> s[i].approved <= s[0].approved;
        ApprovedAtNone(s, t);
      }
    }
  }

  /**
   The lookup records in a stable sort on approval time, most recently
   approved first. The result is a permutation of the input, never
   increases in approval time, and keeps the input order among records
   approved at the same time.
   */
  function SortByApproval(s: seq<Project>): (r: seq<Project>)
    ensures |r| == |s|
    ensures SortedByApproval(r)
    ensures multiset(r) == multiset(s)
    ensures forall t :: ApprovedAt(r, t) == ApprovedAt(s, t)
    decreases |s|
  {
    if |s| == 0 then []
    else
      var n := |s| - 1;
      var sorted := SortByApproval(s[..n]);
      InsertLast(s, sorted);
      Insert(sorted, s[n])
  }

  /**
   One step of the sort: inserting the last record into a sorted arrangement
   of the others gives a sorted arrangement of the whole sequence.
   */
  lemma InsertLast(s: seq<Project>, sorted: seq<Project>)
    requires |s| > 0
    requires SortedByApproval(sorted)
    requires multiset(sorted) == multiset(s[..|s| - 1])
    requires forall t :: ApprovedAt(sorted, t) == ApprovedAt(s[..|s| - 1], t)
    ensures SortedByApproval(Insert(sorted, s[|s| - 1]))
    ensures multiset(Insert(sorted, s[|s| - 1])) == multiset(s)
    ensures forall t :: ApprovedAt(Insert(sorted, s[|s| - 1]), t) == ApprovedAt(s, t)
  {
    var n := |s| - 1;
    InsertKeepsSorted(sorted, s[n]);
    assert s == s[..n] + [s[n]];
    forall t
      ensures ApprovedAt(Insert(sorted, s[n]), t) == ApprovedAt(s, t)
    {
      InsertApprovedAt(sorted, s[n], t);
    }
  }

  /** The last record of a non-empty sequence shows up under its own time. */
  lemma ApprovedAtLast(r: seq<Project>)
    ensures |r| > 0 ==> |ApprovedAt(r, r[|r| - 1].approved)| > 0
  {
  }

  /** In a sorted sequence no record is approved before the last one. */
  lemma {:induction false} ApprovedAtBelowLast(r: seq<Project>, t: int)
    requires SortedByApproval(r)
    ensures |r| > 0 && t < r[|r| - 1].approved ==> ApprovedAt(r, t) == []
  {
    if |r| > 0 && t < r[|r| - 1].approved {
      assert forall i :: 0 <= i < |r| ==> r[i].approved >= r[|r| - 1].approved;
      ApprovedAtNone(r, t);
    }
  }

  /** Two sorted sequences that agree per time end at the same time. */
  lemma SameLastTime(r1: seq<Project>, r2: seq<Project>)
    requires SortedByApproval(r1) && SortedByApproval(r2)
    requires forall t :: ApprovedAt(r1, t) == ApprovedAt(r2, t)
    requires |r1| > 0 && |r2| > 0
    ensures r1[|r1| - 1].approved == r2[|r2| - 1].approved
  {
    var t1, t2 := r1[|r1| - 1].approved, r2[|r2| - 1].approved;
    ApprovedAtLast(r1);
    ApprovedAtLast(r2);
    ApprovedAtBelowLast(r2, t1);
    ApprovedAtBelowLast(r1, t2);
    assert ApprovedAt(r1, t1) == ApprovedAt(r2, t1);
    assert ApprovedAt(r1, t2) == ApprovedAt(r2, t2);
  }

  /** Two sorted sequences that agree per time end with the same record. */
  lemma SameLastRecord(r1: seq<Project>, r2: seq<Project>)
    requires SortedByApproval(r1) && SortedByApproval(r2)
    requires forall t :: ApprovedAt(r1, t) == ApprovedAt(r2, t)
    requires |r1| > 0 && |r2| > 0
    ensures r1[|r1| - 1] == r2[|r2| - 1]
  {
    SameLastTime(r1, r2);
    var k := r1[|r1| - 1].approved;
    assert ApprovedAt(r1, k) == ApprovedAt(r2, k);
    LastOfApprovedAt(r1);
    LastOfApprovedAt(r2);
  }

  /** The records approved at the last record's time end with that record. */
  lemma LastOfApprovedAt(r: seq<Project>)
    requires |r| > 0
    ensures var a := ApprovedAt(r, r[|r| - 1].approved); |a| > 0 && a[|a| - 1] == r[|r| - 1]
  {
  }

  /** Dropping the same last record keeps two sequences agreeing per time. */
  lemma SamePrefixRecords(r1: seq<Project>, r2: seq<Project>, t: int)
    requires |r1| > 0 && |r2| > 0 && r1[|r1| - 1] == r2[|r2| - 1]
    requires ApprovedAt(r1, t) == ApprovedAt(r2, t)
    ensures ApprovedAt(r1[..|r1| - 1], t) == ApprovedAt(r2[..|r2| - 1], t)
  {
    var x := r1[|r1| - 1];
    var a, b := ApprovedAt(r1[..|r1| - 1], t), ApprovedAt(r2[..|r2| - 1], t);
    var c := if x.approved == t then [x] else [];
    assert a + c == b + c;
    assert a == (a + c)[..|a|];
    assert b == (b + c)[..|b|];
  }

  /**
   A sorted sequence is determined by its per-time subsequences: two sorted
   sequences that agree on the records approved at every time are equal.
   */
  lemma {:induction false} SortedDeterminedByApprovedAt(r1: seq<Project>, r2: seq<Project>)
    requires SortedByApproval(r1) && SortedByApproval(r2)
    requires forall t :: ApprovedAt(r1, t) == ApprovedAt(r2, t)
    ensures r1 == r2
    decreases |r1| + |r2|
  {
    if |r1| == 0 || |r2| == 0 {
      ApprovedAtLast(r1);
      ApprovedAtLast(r2);
    } else {
      var n1, n2 := |r1| - 1, |r2| - 1;
      SameLastRecord(r1, r2);
      assert forall t :: ApprovedAt(r1[..n1], t) == ApprovedAt(r2[..n2], t) by {
        forall t
          ensures ApprovedAt(r1[..n1], t) == ApprovedAt(r2[..n2], t)
        {
          SamePrefixRecords(r1, r2, t);
        }
      }
      SortedPrefix(r1, n1);
      SortedPrefix(r2, n2);
      SortedDeterminedByApprovedAt(r1[..n1], r2[..n2]);
      assert r1 == r1[..n1] + [r1[n1]];
      assert r2 == r2[..n2] + [r2[n2]];
    }
  }


  /**
   `SortByApproval` is the only stable descending sort: any sorted sequence
   that keeps each time's records in input order is its result.
   */
  lemma StableSortIsUnique(s: seq<Project>, r: seq<Project>)
    requires SortedByApproval(r)
    requires forall t :: ApprovedAt(r, t) == ApprovedAt(s, t)
    ensures r == SortByApproval(s)
  {
    SortedDeterminedByApprovedAt(r, SortByApproval(s));
  }

  /** Every id of the hits has a last hit carrying it. */
  lemma {:induction false} LastHitExists(hits: seq<Hit>, id: string)
    requires exists k :: 0 <= k < |hits| && hits[k].projectId == id
    ensures exists i :: IsLastHit(hits, i) && hits[i].projectId == id
    decreases |hits|
  {
    var n := |hits| - 1;
    if hits[n].projectId == id {
      assert IsLastHit(hits, n);
    } else {
      var earlier := hits[..n];
      assert exists k :: 0 <= k < |earlier| && earlier[k].projectId == id by {
        var k :| 0 <= k < |hits| && hits[k].projectId == id;
        assert earlier[k] == hits[k];
      }
      LastHitExists(earlier, id);
      var i :| IsLastHit(earlier, i) && earlier[i].projectId == id;
      assert IsLastHit(hits, i) by {
        assert earlier[i] == hits[i];
        forall j | i < j < |hits|
          ensures hits[j].projectId != hits[i].projectId
        {
          if j < n {
            assert earlier[j] == hits[j];
          }
        }
      }
    }
  }

  /** The last hit with `id` carries a usable icon. */
  predicate HasUsableIcon(hits: seq<Hit>, id: string) {
    exists i :: 0 <= i < |hits| && IsLastHit(hits, i) && hits[i].projectId == id && Truthy(hits[i].iconUrl)
  }

  /**
   `icon` is what the page shows for `id`: the usable icon of the last hit
   with that id, or the placeholder when that hit is missing or its icon is
   absent or empty.
   */
  predicate IconFromHits(hits: seq<Hit>, id: string, icon: string) {
    || (exists i :: 0 <= i < |hits| && IsLastHit(hits, i) && hits[i].projectId == id && hits[i].iconUrl == Some(icon) && icon != "")
    || (icon == Placeholder && !HasUsableIcon(hits, id))
  }

  /** Looking the id up in the icon map yields the icon the hits call for. */
  lemma ResolveIconFromHits(hits: seq<Hit>, id: string)
    ensures IconFromHits(hits, id, ResolveIcon(IconMap(hits), id))
  {
    var icons := IconMap(hits);
    if id in icons {
      var h :| h in hits && h.projectId == id;
      var k :| 0 <= k < |hits| && hits[k] == h;
      LastHitExists(hits, id);
      var i :| IsLastHit(hits, i) && hits[i].projectId == id;
      assert icons[id] == hits[i].iconUrl;
      if !Truthy(icons[id]) {
        assert !HasUsableIcon(hits, id) by {
          forall j | IsLastHit(hits, j) && hits[j].projectId == id
            ensures !Truthy(hits[j].iconUrl)
          {
            assert j == i;
          }
        }
      }
    } else {
      UsableIconIsKey(hits, id);
    }
  }

  lemma UsableIconIsKey(hits: seq<Hit>, id: string)
    ensures HasUsableIcon(hits, id) ==> id in IconMap(hits)
  {
    if HasUsableIcon(hits, id) {
      var j :| 0 <= j < |hits| && IsLastHit(hits, j) && hits[j].projectId == id && Truthy(hits[j].iconUrl);
      assert hits[j] in hits;
    }
  }

  /** One entry of the loop body: the record, its icon and its delay. */
  function EnrichProject(p: Project, icons: map<string, Option<string>>): (e: Entry)
    ensures e.Source() == p
    ensures e.delay == e.approved - e.queued
  {
    Entry(p.id, p.title, ResolveIcon(icons, p.id), p.approved, p.queued, p.approved - p.queued)
  }

  /** The lookup records the entries were made from, in entry order. */
  function Sources(es: seq<Entry>): (ps: seq<Project>)
    ensures |ps| == |es|
    ensures forall k :: 0 <= k < |es| ==> ps[k] == es[k].Source()
  {
    seq(|es|, k requires 0 <= k < |es| => es[k].Source())
  }

  /**
   The pure part of `downloadProjects`. There is one entry per lookup record;
   the entries, read back as records, are a stable sort of the lookup records
   by descending approval time; each delay is approval time minus queue time,
   however negative; each icon is the one the hits call for.
   */
  function Enrich(hits: seq<Hit>, projects: seq<Project>): (es: seq<Entry>)
    ensures |es| == |projects|
    ensures multiset(Sources(es)) == multiset(projects)
    ensures SortedByApproval(Sources(es))
    ensures forall t :: ApprovedAt(Sources(es), t) == ApprovedAt(projects, t)
    ensures forall k :: 0 <= k < |es| ==> es[k].delay == es[k].approved - es[k].queued
    ensures forall k :: 0 <= k < |es| ==> IconFromHits(hits, es[k].id, es[k].iconUrl)
  {
    var icons := IconMap(hits);
    var sorted := SortByApproval(projects);
    var es := seq(|sorted|, k requires 0 <= k < |sorted| => EnrichProject(sorted[k], icons));
    assert Sources(es) == sorted;
    assert forall k :: 0 <= k < |es| ==> IconFromHits(hits, es[k].id, es[k].iconUrl) by {
      forall k | 0 <= k < |es|
        ensures IconFromHits(hits, es[k].id, es[k].iconUrl)
      {
        ResolveIconFromHits(hits, sorted[k].id);
      }
    }
    es
  }

  /**
   `downloadProjects`: the listing call, then the batch lookup of the hits'
   ids, then enrichment. A failed call aborts the whole operation with that
   call's error and no partial result.
   */
  function DownloadProjects(listing: Response<seq<Hit>>, lookup: seq<string> -> Response<seq<Project>>)
    : (r: Result<seq<Entry>, ApiError>)
    ensures !listing.ok ==> r == Failure(RequestFailed("API call failed: " + listing.statusText))
    ensures listing.ok && !lookup(HitIds(listing.body)).ok ==>
      r == Failure(RequestFailed("API call failed: " + lookup(HitIds(listing.body)).statusText))
    ensures r.Success? <==> listing.ok && lookup(HitIds(listing.body)).ok
    ensures r.Success? ==> r.value == Enrich(listing.body, lookup(HitIds(listing.body)).body)
  {
    match Api(listing)
    case Failure(e) => Failure(e)
    case Success(hits) =>
      match Api(lookup(HitIds(hits)))
      case Failure(e) => Failure(e)
      case Success(projects) => Success(Enrich(hits, projects))
  }
}

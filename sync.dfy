/** Server synchronisation in the full widget (dom-manipulation/script.js): turning the
    fetched posts into quotes, the test for an incoming change, conflict detection between the
    local store and the server list, and the union-by-text merge. */
module Sync {
  import opened Wrappers
  import opened Seqs
  import opened JsText
  import opened Quotes

  /** One post of the mock server's answer, read field by field (0 or "" when missing or falsy). */
  datatype ServerPost = ServerPost(id: nat, title: string)

  /** At most this many posts are kept. */
  const ServerLimit: nat := 20
  /** The category every server quote gets. */
  const ServerCategory: string := "Server"

  /** The quote made of the post at position `idx`: the post's id and title where present,
      otherwise `idx + 1` and a numbered placeholder. */
  function ServerQuote(p: ServerPost, idx: nat): (q: Quote)
    ensures q.category == ServerCategory && q.id >= 1 && q.text != []
    ensures p.id != 0 ==> q.id == p.id
    ensures p.id == 0 ==> q.id == idx + 1
    ensures p.title != [] ==> q.text == p.title
    ensures p.title == [] ==> q.text == "Server quote " + DecimalString(idx + 1)
  {
    Quote(if p.id != 0 then p.id else idx + 1,
          OrElse(p.title, "Server quote " + DecimalString(idx + 1)),
          ServerCategory)
  }

  /** `data.slice(0, 20).map(...)` in `fetchServerQuotes`: one quote per post for the first
      twenty posts, in order, all in the "Server" category. */
  function ServerQuotes(data: seq<ServerPost>): (qs: seq<Quote>)
    ensures |qs| == if |data| < ServerLimit then |data| else ServerLimit
    ensures forall i :: 0 <= i < |qs| ==> qs[i].category == ServerCategory && qs[i].text != []
    ensures forall i :: 0 <= i < |qs| && data[i].id != 0 ==> qs[i].id == data[i].id
    ensures forall i :: 0 <= i < |qs| && data[i].title != [] ==> qs[i].text == data[i].title
    ensures forall i :: 0 <= i < |qs| ==> qs[i] == ServerQuote(data[i], i)
  {
    var n := if |data| < ServerLimit then |data| else ServerLimit;
    seq(n, i requires 0 <= i < n => ServerQuote(data[i], i))
  }

  /** Posts after the twentieth do not matter. */
  lemma ServerQuotesIgnoreTail(data: seq<ServerPost>, more: seq<ServerPost>)
    requires |data| >= ServerLimit
    ensures ServerQuotes(data + more) == ServerQuotes(data)
  {
    var a, b := ServerQuotes(data + more), ServerQuotes(data);
    forall i | 0 <= i < |a| ensures a[i] == b[i] {
      assert (data + more)[i] == data[i];
    }
  }

  /** Posts that all carry distinct ids give quotes with distinct ids. */
  lemma ServerIdsUnique(data: seq<ServerPost>)
    requires forall i :: 0 <= i < |data| ==> data[i].id != 0
    requires forall i, j :: 0 <= i < j < |data| ==> data[i].id != data[j].id
    ensures UniqueIds(ServerQuotes(data))
  {
  }

  /** `new Map(local.map(q => [q.id, q]))`: the local records by id. When two records share
      an id, the later one is the one kept. */
  function ById(local: seq<Quote>): (m: map<nat, Quote>)
    ensures forall id :: id in m <==> exists i :: 0 <= i < |local| && local[i].id == id
    ensures forall id :: id in m ==> m[id] in local && m[id].id == id
    decreases |local|
  {
    if local == [] then map[]
    else
      var last := local[|local| - 1];
      ById(local[..|local| - 1])[last.id := last]
  }

  /** With unique ids, every local record is found under its own id. */
  lemma {:induction false} ByIdFindsEach(local: seq<Quote>)
    requires UniqueIds(local)
    ensures forall i :: 0 <= i < |local| ==> ById(local)[local[i].id] == local[i]
    decreases |local|
  {
    forall i | 0 <= i < |local| ensures ById(local)[local[i].id] == local[i] {
      ByIdFindsOne(local, i);
    }
  }

  /** The record at position `i` is found under its id when no later record has that id. */
  lemma {:induction false} ByIdFindsOne(local: seq<Quote>, i: nat)
    requires i < |local|
    requires forall j :: i < j < |local| ==> local[j].id != local[i].id
    ensures local[i].id in ById(local) && ById(local)[local[i].id] == local[i]
    decreases |local|
  {
    var init, last := local[..|local| - 1], local[|local| - 1];
    if i < |init| {
      assert init[i] == local[i];
      forall j | i < j < |init| ensures init[j].id != init[i].id {
        assert init[j] == local[j];
      }
      ByIdFindsOne(init, i);
    }
  }

  /** What `detectConflict` checks of one server record: a local record with its id exists
      and has the same text and category. */
  predicate Agrees(localById: map<nat, Quote>, s: Quote) {
    s.id in localById && localById[s.id].text == s.text && localById[s.id].category == s.category
  }

  /** A conflict: the lists differ in length, or some server record does not agree with the
      local record of the same id. */
  predicate Conflict(local: seq<Quote>, server: seq<Quote>) {
    |local| != |server| || exists i :: 0 <= i < |server| && !Agrees(ById(local), server[i])
  }

  /** `detectConflict`, with its loop over the server list and its early returns. */
  method DetectConflict(local: seq<Quote>, server: seq<Quote>) returns (conflict: bool)
    ensures conflict == Conflict(local, server)
  {
    if |local| != |server| {
      return true;
    }
    var localById := ById(local);
    for i := 0 to |server|
      invariant forall k :: 0 <= k < i ==> Agrees(localById, server[k])
    {
      var s := server[i];
      if s.id !in localById {
        return true;
      }
      var l := localById[s.id];
      if l.text != s.text || l.category != s.category {
        return true;
      }
    }
    return false;
  }

  /** For a local list with unique ids, there is no conflict exactly when both lists have the
      same length and every server record occurs in the local list. */
  lemma NoConflictIff(local: seq<Quote>, server: seq<Quote>)
    requires UniqueIds(local)
    ensures !Conflict(local, server) <==>
      |local| == |server| && forall i :: 0 <= i < |server| ==> server[i] in local
  {
    var m := ById(local);
    ByIdFindsEach(local);
    if !Conflict(local, server) {
      forall i | 0 <= i < |server| ensures server[i] in local {
        assert Agrees(m, server[i]);
        assert m[server[i].id] == server[i];
      }
    }
    if |local| == |server| && forall i :: 0 <= i < |server| ==> server[i] in local {
      forall i | 0 <= i < |server| ensures Agrees(m, server[i]) {
        var k :| 0 <= k < |local| && local[k] == server[i];
        assert m[local[k].id] == local[k];
      }
    }
  }

  /** A snapshot with unique ids never conflicts with itself. */
  lemma NoConflictWithItself(s: seq<Quote>)
    requires UniqueIds(s)
    ensures !Conflict(s, s)
  {
    NoConflictIff(s, s);
  }

  /** Unique ids are needed: the map keeps only the later of two records with one id, so a
      snapshot holding both is reported in conflict with itself. */
  lemma DuplicateIdsConflictWithThemselves()
    ensures var s := [Quote(1, "a", "x"), Quote(1, "b", "x")]; Conflict(s, s)
  {
    var s := [Quote(1, "a", "x"), Quote(1, "b", "x")];
    assert ById(s)[1] == s[1];
    assert !Agrees(ById(s), s[0]);
  }

  /** The test at the start of a sync: the fetched list counts as an incoming change unless it
      equals the snapshot fetched last time (there is none before the first sync). */
  function IncomingChange(lastSnapshot: Option<seq<Quote>>, server: seq<Quote>): (changed: bool)
    ensures !changed <==> lastSnapshot == Some(server)
  {
    lastSnapshot.None? || lastSnapshot.value != server
  }

  /** The texts of the records, in order. */
  function Texts(qs: seq<Quote>): (ts: seq<string>)
    ensures |ts| == |qs|
    ensures forall i :: 0 <= i < |qs| ==> ts[i] == qs[i].text
  {
    seq(|qs|, i requires 0 <= i < |qs| => qs[i].text)
  }

  lemma TextsAppend(a: seq<Quote>, b: seq<Quote>)
    ensures Texts(a + b) == Texts(a) + Texts(b)
  {
  }

  /** The union by text that `onMerge` accumulates: every text once, carried by the first
      record that has it, in the order those records come. */
  function FirstByText(qs: seq<Quote>): (r: seq<Quote>)
    ensures NoDup(Texts(r))
    ensures |r| <= |qs|
    ensures forall i :: 0 <= i < |r| ==> r[i] in qs
    ensures forall i :: 0 <= i < |qs| ==> qs[i].text in Texts(r)
    decreases |qs|
  {
    if qs == [] then []
    else
      var init, q := qs[..|qs| - 1], qs[|qs| - 1];
      var d := FirstByText(init);
      assert forall i :: 0 <= i < |init| ==> qs[i] == init[i];
      if q.text in Texts(d) then d
      else
        TextsAppend(d, [q]);
        assert Texts(d + [q]) == Texts(d) + [q.text];
        assert forall i :: 0 <= i < |init| ==> init[i].text in Texts(d) + [q.text];
        d + [q]
  }

  /** Each record `FirstByText` keeps is the first one of its text. */
  lemma {:induction false} FirstByTextKeepsFirst(qs: seq<Quote>)
    ensures forall i :: 0 <= i < |FirstByText(qs)| ==>
      FirstByText(qs)[i] == qs[FirstIndex(Texts(qs), FirstByText(qs)[i].text)]
    decreases |qs|
  {
    if qs != [] {
      var init, q := qs[..|qs| - 1], qs[|qs| - 1];
      assert qs == init + [q];
      FirstByTextKeepsFirst(init);
      var d := FirstByText(init);
      forall i | 0 <= i < |d| ensures d[i] == qs[FirstIndex(Texts(qs), d[i].text)] {
        EarlierTextStaysFirst(init, q, d[i]);
      }
      if q.text !in Texts(d) {
        LaterTextNotSeen(init, q.text);
        NewTextFirstAtEnd(init, q);
        var r := d + [q];
        assert FirstByText(qs) == r;
        forall i | 0 <= i < |r| ensures r[i] == qs[FirstIndex(Texts(qs), r[i].text)] {
          if i < |d| {
            assert r[i] == d[i];
          }
        }
      } else {
        assert FirstByText(qs) == d;
      }
    }
  }

  /** Appending a record does not move the first occurrence of a text already present. */
  lemma EarlierTextStaysFirst(init: seq<Quote>, q: Quote, x: Quote)
    requires x in init
    ensures FirstIndex(Texts(init + [q]), x.text) == FirstIndex(Texts(init), x.text) < |init|
  {
    KeptTextOccurs(init, x);
    TextsAppend(init, [q]);
    assert Texts([q]) == [q.text];
    FirstIndexAppend(Texts(init), [q.text], x.text);
  }

  /** A text first seen in the appended record first occurs at the end. */
  lemma NewTextFirstAtEnd(init: seq<Quote>, q: Quote)
    requires q.text !in Texts(init)
    ensures FirstIndex(Texts(init + [q]), q.text) == |init|
  {
    TextsAppend(init, [q]);
    assert Texts([q]) == [q.text];
    FirstIndexAppend(Texts(init), [q.text], q.text);
  }

  /** The text of a record of `qs` is among the texts of `qs`. */
  lemma KeptTextOccurs(qs: seq<Quote>, x: Quote)
    requires x in qs
    ensures x.text in Texts(qs)
  {
    var k :| 0 <= k < |qs| && qs[k] == x;
    assert Texts(qs)[k] == x.text;
  }

  /** A text missing from `FirstByText(qs)` occurs nowhere in `qs`. */
  lemma LaterTextNotSeen(qs: seq<Quote>, t: string)
    requires t !in Texts(FirstByText(qs))
    ensures t !in Texts(qs)
  {
  }

  /** `FirstByText` keeps records in the order their texts first occur in its input. */
  lemma {:induction false} FirstByTextOrder(qs: seq<Quote>)
    ensures forall i, j :: 0 <= i < j < |FirstByText(qs)| ==>
      FirstIndex(Texts(qs), FirstByText(qs)[i].text) < FirstIndex(Texts(qs), FirstByText(qs)[j].text)
    decreases |qs|
  {
    if qs != [] {
      var init, q := qs[..|qs| - 1], qs[|qs| - 1];
      FirstByTextOrder(init);
      FirstByTextOrderStep(init, q);
      assert qs == init + [q];
    }
  }

  /** The step of `FirstByTextOrder`: appending one record keeps the order. */
  lemma FirstByTextOrderStep(init: seq<Quote>, q: Quote)
    requires forall i, j :: 0 <= i < j < |FirstByText(init)| ==>
      FirstIndex(Texts(init), FirstByText(init)[i].text) < FirstIndex(Texts(init), FirstByText(init)[j].text)
    ensures forall i, j :: 0 <= i < j < |FirstByText(init + [q])| ==>
      FirstIndex(Texts(init + [q]), FirstByText(init + [q])[i].text) < FirstIndex(Texts(init + [q]), FirstByText(init + [q])[j].text)
  {
    var s := init + [q];
    assert s[..|s| - 1] == init;
    var d := FirstByText(init);
    FirstIndicesStay(init, q, d);
    if q.text !in Texts(d) {
      LaterTextNotSeen(init, q.text);
      NewTextFirstAtEnd(init, q);
      assert FirstByText(s) == d + [q];
      OrderExtends(d, q, Texts(s), |init|);
    } else {
      assert FirstByText(s) == d;
    }
  }

  /** A record whose text first occurs after those of `d` extends the order of `d`. */
  lemma OrderExtends(d: seq<Quote>, q: Quote, ts: seq<string>, bound: nat)
    requires forall i, j :: 0 <= i < j < |d| ==> FirstIndex(ts, d[i].text) < FirstIndex(ts, d[j].text)
    requires forall i :: 0 <= i < |d| ==> FirstIndex(ts, d[i].text) < bound
    requires FirstIndex(ts, q.text) == bound
    ensures forall i, j :: 0 <= i < j < |d + [q]| ==>
      FirstIndex(ts, (d + [q])[i].text) < FirstIndex(ts, (d + [q])[j].text)
  {
    var r := d + [q];
    forall i, j | 0 <= i < j < |r|
      ensures FirstIndex(ts, r[i].text) < FirstIndex(ts, r[j].text)
    {
      assert r[i] == d[i];
      if j < |d| {
        assert r[j] == d[j];
      }
    }
  }

  /** Appending a record leaves the first occurrence of every text of `d` where it was. */
  lemma FirstIndicesStay(init: seq<Quote>, q: Quote, d: seq<Quote>)
    requires forall i :: 0 <= i < |d| ==> d[i] in init
    ensures forall i :: 0 <= i < |d| ==>
      FirstIndex(Texts(init + [q]), d[i].text) == FirstIndex(Texts(init), d[i].text) < |init|
  {
    forall i | 0 <= i < |d|
      ensures FirstIndex(Texts(init + [q]), d[i].text) == FirstIndex(Texts(init), d[i].text) < |init|
    {
      EarlierTextStaysFirst(init, q, d[i]);
    }
  }

  /** `merged.forEach((m, i) => m.id = i + 1)`: the same records, numbered 1..n in order. */
  function Renumber(qs: seq<Quote>): (r: seq<Quote>)
    ensures |r| == |qs|
    ensures forall i :: 0 <= i < |qs| ==> r[i].id == i + 1 && r[i].text == qs[i].text && r[i].category == qs[i].category
  {
    seq(|qs|, i requires 0 <= i < |qs| => qs[i].(id := i + 1))
  }

  /** The store `onMerge` produces from the local store and the server list. */
  function Merged(local: seq<Quote>, server: seq<Quote>): seq<Quote> {
    Renumber(FirstByText(server + local))
  }

  /** The merged store has no text twice, no more records than the two sides together, and
      ids 1..n in order. */
  lemma MergedShape(local: seq<Quote>, server: seq<Quote>)
    ensures var m := Merged(local, server);
      && NoDup(Texts(m))
      && |m| <= |server| + |local|
      && (forall j :: 0 <= j < |m| ==> m[j].id == j + 1)
  {
    var m := Merged(local, server);
    assert Texts(m) == Texts(FirstByText(server + local));
  }

  /** Every text of either side is in the merged store, and nothing else is. */
  lemma MergedTexts(local: seq<Quote>, server: seq<Quote>)
    ensures var m := Merged(local, server);
      && (forall i :: 0 <= i < |server| ==> server[i].text in Texts(m))
      && (forall i :: 0 <= i < |local| ==> local[i].text in Texts(m))
      && (forall j :: 0 <= j < |m| ==> m[j].text in Texts(server) || m[j].text in Texts(local))
  {
    var all := server + local;
    var u := FirstByText(all);
    var m := Merged(local, server);
    assert Texts(m) == Texts(u);
    forall i | 0 <= i < |server| ensures server[i].text in Texts(m) {
      assert all[i] == server[i];
    }
    forall i | 0 <= i < |local| ensures local[i].text in Texts(m) {
      assert all[|server| + i] == local[i];
    }
    forall j | 0 <= j < |m| ensures m[j].text in Texts(server) || m[j].text in Texts(local) {
      var k :| 0 <= k < |all| && all[k] == u[j];
      if k < |server| {
        assert all[k] == server[k] && Texts(server)[k] == m[j].text;
      } else {
        assert all[k] == local[k - |server|] && Texts(local)[k - |server|] == m[j].text;
      }
    }
  }

  /** For a text the server has, the merged record carries the category of the server's first
      record with that text; a text only the local store has keeps the local category. */
  lemma MergedServerWins(local: seq<Quote>, server: seq<Quote>)
    ensures var m := Merged(local, server);
      && (forall j :: 0 <= j < |m| && m[j].text in Texts(server) ==>
            m[j].category == server[FirstIndex(Texts(server), m[j].text)].category)
      && (forall j :: 0 <= j < |m| && m[j].text !in Texts(server) ==>
            m[j].category == local[FirstIndex(Texts(local), m[j].text)].category)
  {
    var all := server + local;
    var u := FirstByText(all);
    var m := Merged(local, server);
    TextsAppend(server, local);
    FirstByTextKeepsFirst(all);
    forall j | 0 <= j < |m|
      ensures m[j].text in Texts(server) ==>
        m[j].category == server[FirstIndex(Texts(server), m[j].text)].category
      ensures m[j].text !in Texts(server) ==>
        m[j].category == local[FirstIndex(Texts(local), m[j].text)].category
    {
      var t := u[j].text;
      KeptTextOccurs(all, u[j]);
      FirstIndexAppend(Texts(server), Texts(local), t);
      var f := FirstIndex(Texts(all), t);
      assert u[j] == all[f];
      if t in Texts(server) {
        assert all[f] == server[f];
      } else {
        assert all[f] == local[f - |server|];
      }
    }
  }

  /** "Server first": in the merged store every record whose text the server has comes
      before every record whose text only the local store has. */
  lemma MergedServerFirst(local: seq<Quote>, server: seq<Quote>)
    ensures var m := Merged(local, server);
      forall i, j :: 0 <= i < |m| && 0 <= j < |m| && m[i].text in Texts(server) && m[j].text !in Texts(server) ==> i < j
  {
    var all := server + local;
    var u := FirstByText(all);
    var m := Merged(local, server);
    TextsAppend(server, local);
    FirstByTextOrder(all);
    forall i, j | 0 <= i < |m| && 0 <= j < |m| && m[i].text in Texts(server) && m[j].text !in Texts(server)
      ensures i < j
    {
      FirstIndexAppend(Texts(server), Texts(local), u[i].text);
      FirstIndexAppend(Texts(server), Texts(local), u[j].text);
    }
  }

  /** A local and a server record with one id and different texts: a conflict, and the merge
      keeps both, the server's first, numbered 1 and 2. */
  lemma MergeExample()
    ensures var local, server := [Quote(1, "A", "X")], [Quote(1, "B", "X")];
      && Conflict(local, server)
      && Merged(local, server) == [Quote(1, "B", "X"), Quote(2, "A", "X")]
  {
    var local, server := [Quote(1, "A", "X")], [Quote(1, "B", "X")];
    assert !Agrees(ById(local), server[0]);
    var all := server + local;
    assert all[..1] == server;
    assert FirstByText(server) == server;
    assert Texts(server) == ["B"];
  }

  /** `onMerge`: the union by text of the server list followed by the local store, renumbered. */
  method MergeQuotes(local: seq<Quote>, server: seq<Quote>) returns (merged: seq<Quote>)
    ensures merged == Merged(local, server)
  {
    var union := UnionByText(server + local);
    merged := RenumberIds(union);
  }

  /** `onMerge`'s first loop: walk the records, keeping one whenever the set of texts seen so
      far does not have its text yet. */
  method UnionByText(all: seq<Quote>) returns (merged: seq<Quote>)
    ensures merged == FirstByText(all)
  {
    var texts: set<string> := {};
    merged := [];
    var k := 0;
    while k < |all|
      invariant 0 <= k <= |all|
      invariant merged == FirstByText(all[..k])
      invariant forall t :: t in texts <==> t in Texts(merged)
    {
      var q := all[k];
      FirstByTextStep(all, k);
      if q.text !in texts {
        TextsAppend(merged, [q]);
        assert Texts([q]) == [q.text];
        texts := texts + {q.text};
        merged := merged + [q];
      }
      k := k + 1;
    }
    assert all[..k] == all;
  }

  /** One more record: `FirstByText` keeps it exactly when its text is new. */
  lemma FirstByTextStep(all: seq<Quote>, k: nat)
    requires k < |all|
    ensures FirstByText(all[..k + 1]) ==
      if all[k].text in Texts(FirstByText(all[..k])) then FirstByText(all[..k])
      else FirstByText(all[..k]) + [all[k]]
  {
    assert all[..k + 1][..k] == all[..k];
  }

  /** `onMerge`'s second loop: give the record at position i the id i + 1. */
  method RenumberIds(qs: seq<Quote>) returns (r: seq<Quote>)
    ensures r == Renumber(qs)
  {
    r := qs;
    ghost var target := Renumber(qs);
    var i := 0;
    while i < |r|
      invariant 0 <= i <= |r| == |target|
      invariant forall j :: 0 <= j < i ==> r[j] == target[j]
      invariant forall j :: i <= j < |r| ==> r[j].text == target[j].text && r[j].category == target[j].category
    {
      r := r[i := r[i].(id := i + 1)];
      i := i + 1;
    }
  }
}

/** The store-and-forward list of timesheetmgr.cpp, against a server that answers as it likes. */
module TimeSheetMgr {
  import opened CStrings

  // `id` is the identity of the object that the list points to.
  datatype Sheet = Sheet(id: nat, labNo: string, utype: char, time: string, image: string)

  // A request returns true, returns false, or throws.
  datatype Reply = Yes | No | Throws

  // Each file in the spool directory holds the request of one sheet, under the time of the sheet.
  type Spool = map<string, Sheet>

  // ---- what the two stages of upload() do ----

  // Sends the listed files until a request throws; true replies delete.
  function SentFiles(spool: Spool, listing: seq<string>, replies: seq<Reply>): (Spool, bool)
    requires |replies| == |listing|
  {
    if listing == [] then (spool, true)
    else
      match replies[0]
      case Yes => SentFiles(spool - {listing[0]}, listing[1..], replies[1..])
      case No => SentFiles(spool, listing[1..], replies[1..])
      case Throws => (spool, false)
  }

  function Acknowledged(list: seq<Sheet>, replies: seq<Reply>): seq<Sheet>
    requires |replies| == |list|
  {
    if list == [] then []
    else
      var n := |list| - 1;
      Acknowledged(list[..n], replies[..n]) + if replies[n] == Yes then [list[n]] else []
  }

  function Kept(list: seq<Sheet>, replies: seq<Reply>): seq<Sheet>
    requires |replies| == |list|
  {
    if list == [] then []
    else
      var n := |list| - 1;
      Kept(list[..n], replies[..n]) + if replies[n] == Yes then [] else [list[n]]
  }

  // A request that throws leaves its text in the spool directory.
  function Spooled(spool: Spool, list: seq<Sheet>, replies: seq<Reply>): Spool
    requires |replies| == |list|
  {
    if list == [] then spool
    else
      var n := |list| - 1;
      var before := Spooled(spool, list[..n], replies[..n]);
      if replies[n] == Throws then before[list[n].time := list[n]] else before
  }

  // list::remove(): every element equal to `x` goes.
  function Remove(list: seq<Sheet>, x: Sheet): (r: seq<Sheet>)
    ensures forall s :: s in r <==> s in list && s != x
  {
    if list == [] then []
    else
      var n := |list| - 1;
      Remove(list[..n], x) + if list[n] == x then [] else [list[n]]
  }

  function RemoveAll(list: seq<Sheet>, xs: seq<Sheet>): seq<Sheet> {
    if xs == [] then list else Remove(RemoveAll(list, xs[..|xs| - 1]), xs[|xs| - 1])
  }

  ghost predicate Distinct(list: seq<Sheet>) {
    forall i, j :: 0 <= i < j < |list| ==> list[i].id != list[j].id
  }

  lemma {:induction false} RemoveSplit(a: seq<Sheet>, b: seq<Sheet>, x: Sheet)
    ensures Remove(a + b, x) == Remove(a, x) + Remove(b, x)
    decreases |b|
  {
    if b == [] {
      assert a + b == a;
    } else {
      var n := |b| - 1;
      assert (a + b)[..|a| + n] == a + b[..n];
      RemoveSplit(a, b[..n], x);
    }
  }

  lemma {:induction false} RemoveNothing(list: seq<Sheet>, x: Sheet)
    requires x !in list
    ensures Remove(list, x) == list
  {
    if list != [] {
      var n := |list| - 1;
      assert x !in list[..n] && list[n] != x;
      RemoveNothing(list[..n], x);
      assert list == list[..n] + [list[n]];
    }
  }

  lemma RemoveOnly(x: Sheet)
    ensures Remove([x], x) == []
  {
    assert [x][..0] == [];
  }

  lemma {:induction false} RemoveAllLast(list: seq<Sheet>, last: Sheet, xs: seq<Sheet>)
    requires last !in xs
    ensures RemoveAll(list + [last], xs) == RemoveAll(list, xs) + [last]
    decreases |xs|
  {
    if xs != [] {
      var init, x := xs[..|xs| - 1], xs[|xs| - 1];
      RemoveAllLast(list, last, init);
      RemoveSplit(RemoveAll(list, init), [last], x);
      assert x != last && x in xs;
      RemoveNothing([last], x);
    }
  }

  lemma {:induction false} AcknowledgedListed(list: seq<Sheet>, replies: seq<Reply>)
    requires |replies| == |list|
    ensures forall s :: s in Acknowledged(list, replies) ==> s in list
    ensures forall s :: s in Kept(list, replies) ==> s in list
  {
    if list != [] {
      AcknowledgedListed(list[..|list| - 1], replies[..|list| - 1]);
    }
  }

  /** Removing the acknowledged sheets one by one leaves the others, in their order. */
  lemma {:induction false} RemovingKeeps(list: seq<Sheet>, replies: seq<Reply>)
    requires |replies| == |list| && Distinct(list)
    ensures RemoveAll(list, Acknowledged(list, replies)) == Kept(list, replies)
  {
    if list != [] {
      var n := |list| - 1;
      var init, last, acks := list[..n], list[n], Acknowledged(list[..n], replies[..n]);
      assert list == init + [last];
      RemovingKeeps(init, replies[..n]);
      AcknowledgedListed(init, replies[..n]);
      assert last !in init;
      RemoveAllLast(init, last, acks);
      var kept := Kept(init, replies[..n]);
      assert acks + [] == acks;
      if replies[n] == Yes {
        assert (acks + [last])[..|acks|] == acks;
        assert RemoveAll(list, acks + [last]) == Remove(kept + [last], last);
        RemoveSplit(kept, [last], last);
        RemoveNothing(kept, last);
        assert Remove([last], last) == [] by {
          RemoveOnly(last);
        }
        assert kept + [] == kept;
      }
    }
  }

  class TimeSheetMgr {
    var list: seq<Sheet>
    var spool: Spool
    var nextId: nat

    ghost predicate Valid()
      reads this
    {
      Distinct(list) && forall s :: s in list ==> s.id < nextId
    }

    constructor (spool: Spool)
      ensures Valid() && list == [] && this.spool == spool
    {
      list, this.spool, nextId := [], spool, 0;
    }

    method Insert(labNo: string, utype: char, time: string, image: string)
      requires Valid()
      modifies this`list, this`nextId
      ensures Valid() && nextId == old(nextId) + 1
      ensures list == old(list) + [Sheet(old(nextId), labNo, utype, time, image)]
    {
      var ts := Sheet(nextId, labNo, utype, time, image);
      list := list + [ts];
      nextId := nextId + 1;
    }

    // The first loop of upload(); false once a request throws.
    method SendFiles(listing: seq<string>, replies: seq<Reply>) returns (ok: bool)
      requires |replies| == |listing|
      modifies this`spool
      ensures (spool, ok) == SentFiles(old(spool), listing, replies)
    {
      ok := true;
      var i := 0;
      assert listing[0..] == listing && replies[0..] == replies;
      while i < |listing|
        invariant i <= |listing| && ok
        invariant SentFiles(spool, listing[i..], replies[i..]) == SentFiles(old(spool), listing, replies)
        decreases |listing| - i
      {
        assert listing[i..][1..] == listing[i + 1..] && replies[i..][1..] == replies[i + 1..];
        match replies[i] {
          case Yes =>
            spool := spool - {listing[i]};
          case No =>
          case Throws =>
            return false;
        }
        i := i + 1;
      }
    }

    // The loops of upload() over the list: send every sheet, then drop those acknowledged.
    method SendList(replies: seq<Reply>)
      requires Valid() && |replies| == |list|
      modifies this`list, this`spool
      ensures Valid() && list == Kept(old(list), replies)
      ensures spool == Spooled(old(spool), old(list), replies)
    {
      hide Acknowledged, Kept, Spooled, RemoveAll;
      var erase := SendSheets(replies);
      Erase(erase);
      RemovingKeeps(old(list), replies);
      KeptDistinct(old(list), replies);
      AcknowledgedListed(old(list), replies);
    }

    method SendSheets(replies: seq<Reply>) returns (erase: seq<Sheet>)
      requires |replies| == |list|
      modifies this`spool
      ensures erase == Acknowledged(list, replies)
      ensures spool == Spooled(old(spool), list, replies)
    {
      erase := [];
      for i := 0 to |list|
        invariant erase == Acknowledged(list[..i], replies[..i])
        invariant spool == Spooled(old(spool), list[..i], replies[..i])
      {
        assert list[..i + 1][..i] == list[..i] && replies[..i + 1][..i] == replies[..i];
        if replies[i] == Yes {
          erase := erase + [list[i]];
        } else if replies[i] == Throws {
          spool := spool[list[i].time := list[i]];
        }
      }
      assert list[..|list|] == list && replies[..|list|] == replies;
    }

    method Erase(erase: seq<Sheet>)
      modifies this`list
      ensures list == RemoveAll(old(list), erase)
    {
      for i := 0 to |erase|
        invariant list == RemoveAll(old(list), erase[..i])
      {
        assert erase[..i + 1][..i] == erase[..i];
        list := Remove(list, erase[i]);
      }
      assert erase[..|erase|] == erase;
    }

    // `listing` is None if the directory cannot be read.
    method Upload(listing: Option<seq<string>>, fileReplies: seq<Reply>, replies: seq<Reply>) returns (ok: bool)
      requires Valid() && |replies| == |list| && (listing.Some? ==> |fileReplies| == |listing.value|)
      modifies this`list, this`spool
      ensures Valid()
      ensures ok <==> listing.Some? && SentFiles(old(spool), listing.value, fileReplies).1
      ensures !ok ==> list == old(list)
      ensures ok ==> list == Kept(old(list), replies)
      ensures spool ==
        if listing.None? then old(spool)
        else
          var sent := SentFiles(old(spool), listing.value, fileReplies).0;
          if ok then Spooled(sent, old(list), replies) else sent
    {
      if listing.None? {
        return false;
      }
      ok := SendFiles(listing.value, fileReplies);
      if ok {
        SendList(replies);
      }
    }
  }

  lemma {:induction false} KeptDistinct(list: seq<Sheet>, replies: seq<Reply>)
    requires |replies| == |list| && Distinct(list)
    ensures Distinct(Kept(list, replies))
  {
    if list != [] {
      var n := |list| - 1;
      KeptDistinct(list[..n], replies[..n]);
      AcknowledgedListed(list[..n], replies[..n]);
      var kept := Kept(list[..n], replies[..n]);
      assert forall i :: 0 <= i < |kept| ==> kept[i] in list[..n];
    }
  }

  // The file `name` is asked for at `i` and confirmed, all requests up to there having been answered.
  predicate Confirmed(listing: seq<string>, replies: seq<Reply>, name: string, i: nat)
    requires |replies| == |listing|
  {
    i < |listing| && listing[i] == name && replies[i] == Yes && Throws !in replies[..i]
  }

  /**
   A file disappears exactly when a true reply to it comes before the first request that throws; the
   others keep their contents.
   */
  lemma {:induction false} FilesGoOnlyAfterYes(spool: Spool, listing: seq<string>, replies: seq<Reply>, name: string)
    requires |replies| == |listing|
    ensures var (sent, ok) := SentFiles(spool, listing, replies);
      && (name in sent ==> name in spool && sent[name] == spool[name])
      && (name in spool ==> (name !in sent <==> exists i: nat :: Confirmed(listing, replies, name, i)))
      && (ok <==> Throws !in replies)
    decreases |listing|
  {
    if listing != [] {
      var rest := if replies[0] == Yes then spool - {listing[0]} else spool;
      FilesGoOnlyAfterYes(rest, listing[1..], replies[1..], name);
      assert replies == [replies[0]] + replies[1..];
      ConfirmedLater(listing, replies, name);
    }
  }

  lemma ConfirmedLater(listing: seq<string>, replies: seq<Reply>, name: string)
    requires |replies| == |listing| > 0
    ensures (exists i: nat :: Confirmed(listing, replies, name, i)) <==>
      || (listing[0] == name && replies[0] == Yes)
      || (replies[0] != Throws && exists i: nat :: Confirmed(listing[1..], replies[1..], name, i))
  {
    if listing[0] == name && replies[0] == Yes {
      assert Confirmed(listing, replies, name, 0);
    }
    if i: nat :| Confirmed(listing, replies, name, i) && i > 0 {
      assert replies[..i] == [replies[0]] + replies[1..][..i - 1];
      assert Confirmed(listing[1..], replies[1..], name, i - 1);
    }
    if i: nat :| replies[0] != Throws && Confirmed(listing[1..], replies[1..], name, i) {
      assert replies[..i + 1] == [replies[0]] + replies[1..][..i];
      assert Confirmed(listing, replies, name, i + 1);
    }
  }

  predicate Thrown(list: seq<Sheet>, replies: seq<Reply>, name: string, i: nat)
    requires |replies| == |list|
  {
    i < |list| && list[i].time == name && replies[i] == Throws
  }

  // The last request for a sheet of time `name` to throw, if any did.
  ghost predicate IsLastThrown(list: seq<Sheet>, replies: seq<Reply>, name: string, last: Option<nat>)
    requires |replies| == |list|
  {
    && (last.Some? ==> Thrown(list, replies, name, last.value))
    && forall i: nat :: Thrown(list, replies, name, i) ==> last.Some? && i <= last.value
  }

  /**
   After the list has been sent there is a file for each time at which a request threw, holding the
   last sheet of that time; all other files are as before.
   */
  lemma {:induction false} ThrowsAreSpooled(spool: Spool, list: seq<Sheet>, replies: seq<Reply>, name: string,
                                            last: Option<nat>)
    requires |replies| == |list| && IsLastThrown(list, replies, name, last)
    ensures var after := Spooled(spool, list, replies);
      if last.Some? then name in after && after[name] == list[last.value]
      else (name in after <==> name in spool) && (name in spool ==> after[name] == spool[name])
    decreases |list|
  {
    if list != [] {
      var n := |list| - 1;
      if Thrown(list, replies, name, n) {
        assert last == Some(n);
      } else {
        assert forall i: nat :: Thrown(list[..n], replies[..n], name, i) ==> Thrown(list, replies, name, i);
        ThrowsAreSpooled(spool, list[..n], replies[..n], name, last);
      }
    }
  }

  // ---- over any run ----

  // Inserts may come between the two stages, which is where upload() does not hold the lock.
  datatype Step =
    | Insert(labNo: string, utype: char, time: string, image: string)
    | Files(listing: seq<string>, replies: seq<Reply>)
    | List(replies: seq<Reply>)

  // `inserted` and `acked` record what has happened.
  datatype State = State(list: seq<Sheet>, spool: Spool, nextId: nat, inserted: seq<Sheet>, acked: set<Sheet>)

  predicate Enabled(s: State, step: Step) {
    match step
    case Insert(_, _, _, _) => true
    case Files(listing, replies) => |replies| == |listing|
    case List(replies) => |replies| == |s.list|
  }

  function Next(s: State, step: Step): State {
    if !Enabled(s, step) then s
    else
      match step
      case Insert(labNo, utype, time, image) =>
        var ts := Sheet(s.nextId, labNo, utype, time, image);
        s.(list := s.list + [ts], nextId := s.nextId + 1, inserted := s.inserted + [ts])
      case Files(listing, replies) => s.(spool := SentFiles(s.spool, listing, replies).0)
      case List(replies) =>
        s.(list := Kept(s.list, replies), spool := Spooled(s.spool, s.list, replies),
           acked := s.acked + set i | 0 <= i < |replies| && replies[i] == Yes :: s.list[i])
  }

  function After(spool: Spool, steps: seq<Step>): State {
    if steps == [] then State([], spool, 0, [], {})
    else Next(After(spool, steps[..|steps| - 1]), steps[|steps| - 1])
  }

  function Without(list: seq<Sheet>, gone: set<Sheet>): seq<Sheet> {
    if list == [] then []
    else
      var n := |list| - 1;
      Without(list[..n], gone) + if list[n] in gone then [] else [list[n]]
  }

  // The list is what was inserted, in order, less what was acknowledged.
  ghost predicate Delivers(s: State) {
    && s.list == Without(s.inserted, s.acked)
    && (forall x :: x in s.acked ==> x in s.inserted)
    && Distinct(s.inserted) && (forall x :: x in s.inserted ==> x.id < s.nextId)
    && Distinct(s.list) && (forall x :: x in s.list ==> x in s.inserted)
  }

  // Acknowledged is what was answered by true.
  lemma {:induction false} AcknowledgedByYes(list: seq<Sheet>, replies: seq<Reply>)
    requires |replies| == |list|
    ensures (set x | x in Acknowledged(list, replies)) == set i | 0 <= i < |replies| && replies[i] == Yes :: list[i]
  {
    if list != [] {
      var n := |list| - 1;
      AcknowledgedByYes(list[..n], replies[..n]);
      var before := set i | 0 <= i < n && replies[..n][i] == Yes :: list[..n][i];
      var now := set i | 0 <= i < |replies| && replies[i] == Yes :: list[i];
      assert now == before + if replies[n] == Yes then {list[n]} else {} by {
        forall x ensures x in now <==> x in before || (replies[n] == Yes && x == list[n]) {
          if x in now {
            var i :| 0 <= i < |replies| && replies[i] == Yes && x == list[i];
            assert i < n ==> replies[..n][i] == Yes && list[..n][i] == x;
          }
          if x in before {
            var i :| 0 <= i < n && replies[..n][i] == Yes && x == list[..n][i];
            assert replies[i] == Yes && list[i] == x;
          }
        }
      }
    }
  }

  lemma {:induction false} KeptWithout(list: seq<Sheet>, replies: seq<Reply>)
    requires |replies| == |list| && Distinct(list)
    ensures Kept(list, replies) == Without(list, set x | x in Acknowledged(list, replies))
  {
    if list != [] {
      var n := |list| - 1;
      var init, acks := list[..n], Acknowledged(list[..n], replies[..n]);
      KeptWithout(init, replies[..n]);
      AcknowledgedListed(init, replies[..n]);
      assert list[n] !in init;
      SameWithout(init, set x | x in acks, set x | x in Acknowledged(list, replies));
    }
  }

  lemma {:induction false} SameWithout(list: seq<Sheet>, a: set<Sheet>, b: set<Sheet>)
    requires forall x :: x in list ==> (x in a <==> x in b)
    ensures Without(list, a) == Without(list, b)
  {
    if list != [] {
      SameWithout(list[..|list| - 1], a, b);
    }
  }

  lemma {:induction false} WithoutTwice(list: seq<Sheet>, a: set<Sheet>, b: set<Sheet>)
    ensures Without(Without(list, a), b) == Without(list, a + b)
  {
    if list != [] {
      var n := |list| - 1;
      WithoutTwice(list[..n], a, b);
      var rest := Without(list[..n], a);
      assert (rest + [list[n]])[..|rest|] == rest;
      assert rest + [] == rest && Without(list[..n], a + b) + [] == Without(list[..n], a + b);
    }
  }

  lemma {:induction false} StepDelivers(s: State, step: Step)
    requires Delivers(s)
    ensures Delivers(Next(s, step))
  {
    if Enabled(s, step) {
      match step
      case Insert(labNo, utype, time, image) =>
        var ts := Sheet(s.nextId, labNo, utype, time, image);
        assert ts !in s.inserted;
        assert (s.inserted + [ts])[..|s.inserted|] == s.inserted;
      case Files(_, _) =>
      case List(replies) =>
        var acks := set x | x in Acknowledged(s.list, replies);
        AcknowledgedByYes(s.list, replies);
        KeptWithout(s.list, replies);
        KeptDistinct(s.list, replies);
        AcknowledgedListed(s.list, replies);
        WithoutTwice(s.inserted, s.acked, acks);
    }
  }

  lemma {:induction false} WithoutMembers(list: seq<Sheet>, gone: set<Sheet>)
    ensures forall x :: x in Without(list, gone) <==> x in list && x !in gone
  {
    if list != [] {
      var n := |list| - 1;
      WithoutMembers(list[..n], gone);
      assert list == list[..n] + [list[n]];
    }
  }

  /**
   Whatever the server answers and whenever sheets are inserted, each inserted sheet is either still
   listed or was acknowledged, and the list keeps the order of insertion.
   */
  lemma {:induction false} AtLeastOnce(spool: Spool, steps: seq<Step>)
    ensures var s := After(spool, steps);
      && (forall x :: x in s.inserted ==> (x in s.list <==> x !in s.acked))
      && s.list == Without(s.inserted, s.acked)
  {
    AlwaysDelivers(spool, steps);
    var s := After(spool, steps);
    WithoutMembers(s.inserted, s.acked);
  }

  lemma {:induction false} AlwaysDelivers(spool: Spool, steps: seq<Step>)
    ensures Delivers(After(spool, steps))
  {
    hide Next, Delivers;
    if steps == [] {
      NothingDelivers(spool);
    } else {
      AlwaysDelivers(spool, steps[..|steps| - 1]);
      StepDelivers(After(spool, steps[..|steps| - 1]), steps[|steps| - 1]);
    }
  }

  lemma NothingDelivers(spool: Spool)
    ensures Delivers(State([], spool, 0, [], {}))
  {
  }
}

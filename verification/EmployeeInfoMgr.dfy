/** The cache of employeeinfomgr.cpp and its files, over any sequence of updates. */
module EmployeeInfoMgr {
  import opened CStrings
  import opened EmployeeXml
  import EmployeeScanner

  // A failed download may still have created or overwritten its target file.
  datatype Download = Fetched(doc: string) | Failed(left: Option<string>)

  // A downloaded document is text that the scanner survives.
  ghost predicate Usable(d: Download) {
    d.Fetched? ==> NUL !in d.doc && Records(d.doc).Some?
  }

  datatype Store = Store(dbFile: Option<string>, tempFile: Option<string>, updated: bool, cache: seq<Employee>)

  function Update(s: Store, force: bool, d: Download): Store
    requires d.Fetched? ==> Records(d.doc).Some?
  {
    if s.updated && !force then s
    else
      match d
      case Failed(left) =>
        var t := s.(updated := false);
        if left.None? then t
        else if s.dbFile.None? then t.(dbFile := left)
        else t.(tempFile := left)
      case Fetched(doc) =>
        Store(Some(doc), if s.dbFile.None? then s.tempFile else None, true, Records(doc).value)
  }

  class EmployeeInfoMgr {
    var dbFile: Option<string>
    var tempFile: Option<string>
    var updated: bool
    var cache: seq<Employee>

    function State(): Store
      reads this
    {
      Store(dbFile, tempFile, updated, cache)
    }

    // Files from an earlier run may be there; the first update is forced.
    constructor (dbFile: Option<string>, tempFile: Option<string>, d: Download)
      requires Usable(d)
      ensures State() == Update(Store(dbFile, tempFile, false, []), true, d)
    {
      this.dbFile, this.tempFile, updated, cache := dbFile, tempFile, false, [];
      new;
      UpdateLocalDB(true, d);
    }

    method UpdateLocalDB(force: bool, d: Download)
      requires Usable(d)
      modifies this
      ensures State() == Update(old(State()), force, d)
    {
      if updated && !force {
        return;
      }
      if dbFile.None? {
        match d
        case Failed(left) =>
          dbFile := left;
          updated := false;
          return;
        case Fetched(doc) =>
          dbFile := Some(doc);
      } else {
        match d
        case Failed(left) =>
          if left.Some? {
            tempFile := left;
          }
          updated := false;
          return;
        case Fetched(doc) =>
          tempFile := Some(doc);
          dbFile := None;
          dbFile, tempFile := tempFile, None;
      }
      LoadCache();
      updated := true;
    }

    // Reads the database file into a buffer, empties the cache and fills it again.
    method LoadCache()
      requires dbFile.Some? && NUL !in dbFile.value && Records(dbFile.value).Some?
      modifies this`cache
      ensures cache == Records(dbFile.value).value
    {
      var doc := dbFile.value;
      var buf := new char[|doc| + 1](i requires 0 <= i <= |doc| => if i < |doc| then doc[i] else NUL);
      assert buf[..][0..|doc|] == doc;
      cache := [];
      cache := EmployeeScanner.FillEmployeeInfoes(buf, cache, doc);
    }

    method SearchDB(serial: string) returns (found: Option<nat>)
      ensures found == FirstWith(cache, serial, 0)
    {
      for i := 0 to |cache|
        invariant FirstWith(cache, serial, 0) == FirstWith(cache, serial, i)
      {
        if cache[i].serial == Some(serial) {
          return Some(i);
        }
      }
      return None;
    }

    // getInfo() on the local database: dates that the record lacks are left as they were.
    method GetInfo(serial: string, ei: Employee) returns (ok: bool, ei': Employee)
      ensures ok == FirstWith(cache, serial, 0).Some?
      ensures !ok ==> ei' == ei
      ensures ok ==>
        var t := cache[FirstWith(cache, serial, 0).value];
        ei' == t.(entCo := if t.entCo.Some? then t.entCo else ei.entCo,
                  rtrCo := if t.rtrCo.Some? then t.rtrCo else ei.rtrCo)
    {
      ei' := ei;
      var found := SearchDB(serial);
      if found.None? {
        return false, ei';
      }
      var t := cache[found.value];
      ei' := ei'.(serial := t.serial, companyName := t.companyName);
      if t.entCo.Some? {
        ei' := ei'.(entCo := t.entCo);
      }
      if t.rtrCo.Some? {
        ei' := ei'.(rtrCo := t.rtrCo);
      }
      ei' := ei'.(inOutGb := t.inOutGb, labNo := t.labNo, labName := t.labName, pinNo := t.pinNo,
                  utype := t.utype, zoneCode := t.zoneCode);
      ok := true;
    }
  }

  // The first record from index `i` on with the serial number, as strcmp() finds it.
  function FirstWith(cache: seq<Employee>, serial: string, i: nat): (found: Option<nat>)
    requires i <= |cache|
    ensures found.Some? ==> i <= found.value < |cache| && cache[found.value].serial == Some(serial)
    ensures forall j :: i <= j < (if found.Some? then found.value else |cache|) ==> cache[j].serial != Some(serial)
    decreases |cache| - i
  {
    if i == |cache| then None
    else if cache[i].serial == Some(serial) then Some(i)
    else FirstWith(cache, serial, i + 1)
  }

  // ---- over any run ----

  datatype Call = Call(force: bool, download: Download)

  function Run(s: Store, calls: seq<Call>): Store
    requires forall i :: 0 <= i < |calls| && calls[i].download.Fetched? ==> Records(calls[i].download.doc).Some?
  {
    if calls == [] then s
    else
      var last := calls[|calls| - 1];
      Update(Run(s, calls[..|calls| - 1]), last.force, last.download)
  }

  predicate Succeeded(attempts: seq<Download>) {
    attempts != [] && attempts[|attempts| - 1].Fetched?
  }

  // The downloads that are really made: an unforced one is skipped if the one before it succeeded.
  function Attempts(calls: seq<Call>): seq<Download> {
    if calls == [] then []
    else
      Attempt(Attempts(calls[..|calls| - 1]), calls[|calls| - 1])
  }

  function Attempt(before: seq<Download>, call: Call): seq<Download> {
    if !call.force && Succeeded(before) then before else before + [call.download]
  }

  function LastFetched(attempts: seq<Download>): Option<string> {
    if attempts == [] then None
    else if Succeeded(attempts) then Some(attempts[|attempts| - 1].doc)
    else LastFetched(attempts[..|attempts| - 1])
  }

  // The flag says whether the last attempt succeeded. The last document downloaded is the database file,
  // and the cache is what it says; before that the file is `oldFile`, if there was one, and nothing
  // is cached. A success leaves no temporary file over an existing database.
  ghost predicate Agrees(oldFile: Option<string>, s: Store, attempts: seq<Download>) {
    var last := LastFetched(attempts);
    && (s.updated <==> Succeeded(attempts))
    && (last.Some? ==> s.dbFile == last && Records(last.value) == Some(s.cache))
    && (last.None? ==> s.cache == [] && (oldFile.Some? ==> s.dbFile == oldFile))
    && (oldFile.Some? && Succeeded(attempts) ==> s.tempFile == None)
  }

  lemma {:induction false} LastFetchedAppend(before: seq<Download>, d: Download)
    ensures LastFetched(before + [d]) == if d.Fetched? then Some(d.doc) else LastFetched(before)
    ensures Succeeded(before + [d]) == d.Fetched?
  {
    assert (before + [d])[..|before|] == before;
  }

  lemma {:induction false} UpdateAgrees(oldFile: Option<string>, s: Store, before: seq<Download>, call: Call)
    requires Agrees(oldFile, s, before)
    requires call.download.Fetched? ==> Records(call.download.doc).Some?
    ensures Agrees(oldFile, Update(s, call.force, call.download), Attempt(before, call))
  {
    hide Records, LastFetched, Succeeded;
    LastFetchedAppend(before, call.download);
  }

  /** Between calls the cache agrees with the attempts made, however many of them have failed. */
  lemma {:induction false} CacheAgrees(dbFile: Option<string>, tempFile: Option<string>, calls: seq<Call>)
    requires forall i :: 0 <= i < |calls| && calls[i].download.Fetched? ==> Records(calls[i].download.doc).Some?
    ensures Agrees(dbFile, Run(Store(dbFile, tempFile, false, []), calls), Attempts(calls))
    decreases |calls|
  {
    hide Records, Update, Attempt, Agrees;
    if calls == [] {
      NothingAgrees(dbFile, tempFile);
    } else {
      var init, last := calls[..|calls| - 1], calls[|calls| - 1];
      CacheAgrees(dbFile, tempFile, init);
      UpdateAgrees(dbFile, Run(Store(dbFile, tempFile, false, []), init), Attempts(init), last);
    }
  }

  lemma NothingAgrees(dbFile: Option<string>, tempFile: Option<string>)
    ensures Agrees(dbFile, Store(dbFile, tempFile, false, []), [])
  {
  }
}

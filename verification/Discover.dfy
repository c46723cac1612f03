/** What is found installed, added after what was configured. */
module Discover {
  import opened Bytes
  import opened Config

  datatype Found = Found(title: string, device: Handle, path: string)

  /** A chainload entry for that file, on that device or on whichever is meant by none. */
  predicate Names(e: Entry, f: Found)
  {
    e.target.Chainload? && e.target.path == f.path
    && (if e.target.device.Some? then e.target.device.value else f.device) == f.device
  }

  predicate Already(entries: seq<Entry>, f: Found)
  {
    exists i :: 0 <= i < |entries| && Names(entries[i], f)
  }

  function EntryFor(f: Found): Entry { Entry(f.title, Chainload(f.path, Some(f.device))) }

  /** The entries after the first `n` findings have been merged in. */
  function Merged(entries: seq<Entry>, found: seq<Found>, n: nat): seq<Entry>
    requires n <= |found|
  {
    if n == 0 then entries
    else
      var before := Merged(entries, found, n - 1);
      if Already(before, found[n - 1]) then before else before + [EntryFor(found[n - 1])]
  }

  /** The merge loop of `main`. */
  method Merge(cfg: Config, found: seq<Found>) returns (r: Config)
    ensures r == if cfg.autodetect then cfg.(entries := Merged(cfg.entries, found, |found|)) else cfg
  {
    r := cfg;
    if cfg.autodetect {
      for n := 0 to |found|
        invariant r == cfg.(entries := Merged(cfg.entries, found, n))
      {
        var already := false;
        for i := 0 to |r.entries|
          invariant !already && forall j :: 0 <= j < i ==> !Names(r.entries[j], found[n])
        {
          match r.entries[i].target {
            case Chainload(path, device) =>
              if path == found[n].path && (if device.Some? then device.value else found[n].device) == found[n].device {
                assert Names(r.entries[i], found[n]);
                already := true;
                break;
              }
            case _ =>
          }
        }
        if already {
          continue;
        }
        r := r.(entries := r.entries + [EntryFor(found[n])]);
      }
    }
  }

  /** Configured entries stay where they were put, so a valid default still names the
      same entry; what is added names one of the findings each. */
  lemma {:induction false} ConfiguredStay(entries: seq<Entry>, found: seq<Found>, n: nat)
    requires n <= |found|
    ensures entries <= Merged(entries, found, n)
    ensures forall i :: |entries| <= i < |Merged(entries, found, n)| ==>
              exists k :: 0 <= k < n && Merged(entries, found, n)[i] == EntryFor(found[k])
  {
    if n > 0 {
      ConfiguredStay(entries, found, n - 1);
      var m, before := Merged(entries, found, n), Merged(entries, found, n - 1);
      forall i | |entries| <= i < |m|
        ensures exists k :: 0 <= k < n && m[i] == EntryFor(found[k])
      {
        if i < |before| {
          assert m[i] == before[i];
          var k :| 0 <= k < n - 1 && before[i] == EntryFor(found[k]);
        } else {
          assert m[i] == EntryFor(found[n - 1]);
        }
      }
    }
  }

  /** One finding in full: it is added, under its own title and on its own device, exactly
      if no entry yet boots that file from that device or from whichever is meant by none. */
  lemma AddedIfNew(entries: seq<Entry>, found: seq<Found>, n: nat)
    requires n < |found|
    ensures var before, f := Merged(entries, found, n), found[n];
            Merged(entries, found, n + 1) ==
            if exists e :: e in before && (e.target == Chainload(f.path, None)
                                           || e.target == Chainload(f.path, Some(f.device)))
            then before
            else before + [Entry(f.title, Chainload(f.path, Some(f.device)))]
    ensures Merged(entries, found, 0) == entries
  {
    var before, f := Merged(entries, found, n), found[n];
    if e :| e in before && (e.target == Chainload(f.path, None) || e.target == Chainload(f.path, Some(f.device))) {
      var i :| 0 <= i < |before| && before[i] == e;
      assert Names(before[i], f);
    }
  }

  lemma AlreadyGrows(before: seq<Entry>, after: seq<Entry>, f: Found)
    requires before <= after && Already(before, f)
    ensures Already(after, f)
  {
    var i :| 0 <= i < |before| && Names(before[i], f);
    assert Names(after[i], f);
  }

  /** Everything found can be chosen. */
  lemma {:induction false} FoundAreOffered(entries: seq<Entry>, found: seq<Found>, n: nat, k: nat)
    requires k < n <= |found|
    ensures exists e :: e in Merged(entries, found, n)
                        && (e.target == Chainload(found[k].path, None)
                            || e.target == Chainload(found[k].path, Some(found[k].device)))
    ensures Already(Merged(entries, found, n), found[k])
  {
    var m, before := Merged(entries, found, n), Merged(entries, found, n - 1);
    if k == n - 1 {
      if !Already(before, found[k]) {
        assert Names(m[|before|], found[k]);
      }
    } else {
      FoundAreOffered(entries, found, n - 1, k);
      AlreadyGrows(before, m, found[k]);
    }
  }

  /** No file on a device is added twice. */
  lemma {:induction false} AddedDistinct(entries: seq<Entry>, found: seq<Found>, n: nat, i: nat, j: nat)
    requires n <= |found| && |entries| <= i < j < |Merged(entries, found, n)|
    ensures Merged(entries, found, n)[i].target != Merged(entries, found, n)[j].target
  {
    ConfiguredStay(entries, found, n);
    if n > 0 {
      var m, before := Merged(entries, found, n), Merged(entries, found, n - 1);
      ConfiguredStay(entries, found, n - 1);
      if j < |before| {
        AddedDistinct(entries, found, n - 1, i, j);
      } else {
        assert m[j] == EntryFor(found[n - 1]) && !Names(before[i], found[n - 1]);
      }
    }
  }

  /** Merging the same findings again adds nothing. */
  lemma {:induction false} MergedOnce(entries: seq<Entry>, found: seq<Found>, n: nat)
    requires n <= |found|
    ensures var once := Merged(entries, found, |found|); Merged(once, found, n) == once
  {
    if n > 0 {
      MergedOnce(entries, found, n - 1);
      FoundAreOffered(entries, found, |found|, n - 1);
    }
  }
}

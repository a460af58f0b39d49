/**
 * The ICO bundle: the source image is rendered as a single-image `.ico` at
 * each size of a fixed ascending list, every rendering that succeeds is
 * added to a ZIP archive as `icon-{d}x{d}.ico`, and renderings that fail are
 * skipped.
 */
module IcoBundle {
  import opened Common
  import opened Text

  /** The square sizes, smallest first. */
  const IcoSizes: seq<nat> := [16, 24, 32, 48, 64, 128, 256]

  /** The archive entry name for size `d`: `icon-${d}x${d}.ico`. */
  function IcoName(d: nat): string
  {
    "icon-" + NatToString(d) + "x" + NatToString(d) + ".ico"
  }

  /** Different sizes give different entry names. */
  lemma IcoNameInjective(a: nat, b: nat)
    requires IcoName(a) == IcoName(b)
    ensures a == b
  {
    var sa, sb := NatToString(a), NatToString(b);
    assert |IcoName(a)| == 2 * |sa| + 10;
    assert |sa| == |sb|;
    assert IcoName(a)[5..5 + |sa|] == sa;
    assert IcoName(b)[5..5 + |sb|] == sb;
    NatToStringInjective(a, b);
  }

  /** One file of the archive. */
  datatype Entry = Entry(name: string, data: Bytes)

  /** Whether some entry is called `name`. */
  predicate HasName(entries: seq<Entry>, name: string)
  {
    exists i :: 0 <= i < |entries| && entries[i].name == name
  }

  /**
   * JSZip's `file(name, data)`: an entry of the same name is overwritten
   * where it stands, otherwise the new entry goes at the end.
   */
  function Put(entries: seq<Entry>, e: Entry): seq<Entry>
  {
    if entries == [] then [e]
    else if entries[0].name == e.name then [e] + entries[1..]
    else [entries[0]] + Put(entries[1..], e)
  }

  /** Adding a file under a new name appends it. */
  lemma {:induction false} PutNewName(entries: seq<Entry>, e: Entry)
    requires !HasName(entries, e.name)
    ensures Put(entries, e) == entries + [e]
  {
    if entries != [] {
      assert entries[0].name != e.name;
      PutNewName(entries[1..], e);
      assert [entries[0]] + (entries[1..] + [e]) == entries + [e];
    }
  }

  /**
   * Adding a file under a name already present replaces the first entry of
   * that name where it stands; every other entry and the length are kept.
   */
  lemma {:induction false} PutExistingName(entries: seq<Entry>, e: Entry, i: nat)
    requires i < |entries| && entries[i].name == e.name
    requires forall j :: 0 <= j < i ==> entries[j].name != e.name
    ensures Put(entries, e) == entries[i := e]
    ensures |Put(entries, e)| == |entries|
  {
    if i > 0 {
      assert entries[0].name != e.name;
      PutExistingName(entries[1..], e, i - 1);
      assert [entries[0]] + entries[1..][i - 1 := e] == entries[i := e];
    }
  }

  /** The JSZip archive under construction. */
  class ZipArchive {
    var entries: seq<Entry>

    /** `new JSZip()`: an empty archive. */
    constructor ()
      ensures entries == []
    {
      entries := [];
    }

    /** `zip.file(name, data)`. */
    method File(name: string, data: Bytes)
      modifies this
      ensures entries == Put(old(entries), Entry(name, data))
    {
      entries := Put(entries, Entry(name, data));
    }
  }

  /** The entry a successful rendering at size `d` contributes. */
  function Contribution(d: nat, outcome: Option<Bytes>): seq<Entry>
  {
    match outcome
    case Some(ico) => [Entry(IcoName(d), ico)]
    case None => []
  }

  /**
   * The archive's entries after the loop has visited `sizes`: one per size
   * whose rendering succeeded, in the order visited.
   */
  function IcoEntries(source: Bytes, renderIco: (Bytes, nat) -> Option<Bytes>, sizes: seq<nat>): seq<Entry>
  {
    if sizes == [] then []
    else
      var d := sizes[|sizes| - 1];
      IcoEntries(source, renderIco, sizes[..|sizes| - 1]) + Contribution(d, renderIco(source, d))
  }

  /** The sizes whose rendering succeeded, in the order visited. */
  function Succeeded(source: Bytes, renderIco: (Bytes, nat) -> Option<Bytes>, sizes: seq<nat>): seq<nat>
  {
    if sizes == [] then []
    else
      var d := sizes[|sizes| - 1];
      Succeeded(source, renderIco, sizes[..|sizes| - 1]) + (if renderIco(source, d).Some? then [d] else [])
  }

  predicate StrictlyAscending(s: seq<nat>)
  {
    forall i, j :: 0 <= i < j < |s| ==> s[i] < s[j]
  }

  /**
   * Entry k is named after the k-th successful size and holds what the
   * renderer produced for it; there is one entry per successful size.
   */
  lemma {:induction false} EntriesFollowSucceeded(source: Bytes, renderIco: (Bytes, nat) -> Option<Bytes>, sizes: seq<nat>)
    ensures |IcoEntries(source, renderIco, sizes)| == |Succeeded(source, renderIco, sizes)|
    ensures forall k :: 0 <= k < |Succeeded(source, renderIco, sizes)| ==>
      var d := Succeeded(source, renderIco, sizes)[k];
      renderIco(source, d).Some? &&
      IcoEntries(source, renderIco, sizes)[k] == Entry(IcoName(d), renderIco(source, d).value)
  {
    if sizes != [] {
      EntriesFollowSucceeded(source, renderIco, sizes[..|sizes| - 1]);
    }
  }

  /** A size succeeded exactly when it was visited and its rendering worked. */
  lemma {:induction false} SucceededMembers(source: Bytes, renderIco: (Bytes, nat) -> Option<Bytes>, sizes: seq<nat>)
    ensures forall d :: d in Succeeded(source, renderIco, sizes) <==> d in sizes && renderIco(source, d).Some?
    ensures |Succeeded(source, renderIco, sizes)| <= |sizes|
  {
    if sizes != [] {
      var init := sizes[..|sizes| - 1];
      SucceededMembers(source, renderIco, init);
      assert sizes == init + [sizes[|sizes| - 1]];
    }
  }

  /** Visiting ascending sizes gives ascending successes. */
  lemma {:induction false} SucceededAscending(source: Bytes, renderIco: (Bytes, nat) -> Option<Bytes>, sizes: seq<nat>)
    requires StrictlyAscending(sizes)
    ensures StrictlyAscending(Succeeded(source, renderIco, sizes))
  {
    if sizes != [] {
      var init := sizes[..|sizes| - 1];
      var d := sizes[|sizes| - 1];
      assert StrictlyAscending(init);
      SucceededAscending(source, renderIco, init);
      SucceededMembers(source, renderIco, init);
      var prev := Succeeded(source, renderIco, init);
      forall k | 0 <= k < |prev|
        ensures prev[k] < d
      {
        assert prev[k] in prev;
        var i :| 0 <= i < |init| && init[i] == prev[k];
        assert sizes[i] == init[i];
      }
      assert Succeeded(source, renderIco, sizes) == prev + (if renderIco(source, d).Some? then [d] else []);
    }
  }

  /** The fixed size list is strictly ascending. */
  lemma IcoSizesAscending()
    ensures StrictlyAscending(IcoSizes)
  {
  }

  /** No two entries of a bundle over ascending sizes share a name. */
  lemma EntryNamesDistinct(source: Bytes, renderIco: (Bytes, nat) -> Option<Bytes>, sizes: seq<nat>)
    requires StrictlyAscending(sizes)
    ensures forall i, j :: 0 <= i < j < |IcoEntries(source, renderIco, sizes)| ==>
      IcoEntries(source, renderIco, sizes)[i].name != IcoEntries(source, renderIco, sizes)[j].name
  {
    EntriesFollowSucceeded(source, renderIco, sizes);
    SucceededAscending(source, renderIco, sizes);
    var s := Succeeded(source, renderIco, sizes);
    forall i, j | 0 <= i < j < |IcoEntries(source, renderIco, sizes)|
      ensures IcoEntries(source, renderIco, sizes)[i].name != IcoEntries(source, renderIco, sizes)[j].name
    {
      if IcoName(s[i]) == IcoName(s[j]) {
        IcoNameInjective(s[i], s[j]);
      }
    }
  }

  /** The bundle is empty exactly when every rendering failed. */
  lemma NoEntriesIffAllFailed(source: Bytes, renderIco: (Bytes, nat) -> Option<Bytes>, sizes: seq<nat>)
    ensures IcoEntries(source, renderIco, sizes) == [] <==> forall d :: d in sizes ==> renderIco(source, d).None?
  {
    EntriesFollowSucceeded(source, renderIco, sizes);
    SucceededMembers(source, renderIco, sizes);
    if Succeeded(source, renderIco, sizes) != [] {
      assert Succeeded(source, renderIco, sizes)[0] in Succeeded(source, renderIco, sizes);
    }
  }

  /**
   * What a bundle over the fixed sizes holds: at most seven entries, in
   * ascending size order, each named `icon-{d}x{d}.ico` after a size whose
   * rendering succeeded and holding that rendering, no name twice, and one
   * entry for every size that succeeded.
   */
  lemma BundleContents(source: Bytes, renderIco: (Bytes, nat) -> Option<Bytes>)
    ensures var entries := IcoEntries(source, renderIco, IcoSizes);
      var sizes := Succeeded(source, renderIco, IcoSizes);
      && |entries| == |sizes| <= 7
      && StrictlyAscending(sizes)
      && (forall d :: d in sizes <==> d in IcoSizes && renderIco(source, d).Some?)
      && (forall k :: 0 <= k < |entries| ==>
            entries[k] == Entry(IcoName(sizes[k]), renderIco(source, sizes[k]).value))
      && (forall i, j :: 0 <= i < j < |entries| ==> entries[i].name != entries[j].name)
  {
    IcoSizesAscending();
    EntriesFollowSucceeded(source, renderIco, IcoSizes);
    SucceededMembers(source, renderIco, IcoSizes);
    SucceededAscending(source, renderIco, IcoSizes);
    EntryNamesDistinct(source, renderIco, IcoSizes);
  }

  /** A size not yet visited names no entry so far. */
  lemma {:induction false} UnvisitedNameIsNew(source: Bytes, renderIco: (Bytes, nat) -> Option<Bytes>, sizes: seq<nat>, d: nat)
    requires d !in sizes
    ensures !HasName(IcoEntries(source, renderIco, sizes), IcoName(d))
  {
    EntriesFollowSucceeded(source, renderIco, sizes);
    SucceededMembers(source, renderIco, sizes);
    var s := Succeeded(source, renderIco, sizes);
    if HasName(IcoEntries(source, renderIco, sizes), IcoName(d)) {
      var k :| 0 <= k < |IcoEntries(source, renderIco, sizes)| && IcoEntries(source, renderIco, sizes)[k].name == IcoName(d);
      IcoNameInjective(s[k], d);
    }
  }

  /** The size the loop visits next has not been visited before. */
  lemma NextSizeUnvisited(i: nat)
    requires i < |IcoSizes|
    ensures IcoSizes[i] !in IcoSizes[..i]
  {
    IcoSizesAscending();
    if IcoSizes[i] in IcoSizes[..i] {
      var k :| 0 <= k < i && IcoSizes[..i][k] == IcoSizes[i];
      assert IcoSizes[k] < IcoSizes[i];
    }
  }

  /**
   * The loop over the sizes: render each size, add each success to a fresh
   * archive and count it. A failed size is skipped.
   */
  method BuildIcoBundle(source: Bytes, renderIco: (Bytes, nat) -> Option<Bytes>) returns (zip: ZipArchive, generated: nat)
    ensures fresh(zip)
    ensures zip.entries == IcoEntries(source, renderIco, IcoSizes)
    ensures generated == |zip.entries|
  {
    var sizes := IcoSizes;
    zip := new ZipArchive();
    generated := 0;
    var i := 0;
    while i < |sizes|
      invariant 0 <= i <= |sizes|
      invariant zip.entries == IcoEntries(source, renderIco, sizes[..i])
      invariant generated == |zip.entries|
    {
      var size := sizes[i];
      assert sizes[..i + 1][..i] == sizes[..i];
      var outcome := renderIco(source, size);
      if outcome.Some? {
        NextSizeUnvisited(i);
        UnvisitedNameIsNew(source, renderIco, sizes[..i], size);
        PutNewName(zip.entries, Entry(IcoName(size), outcome.value));
        zip.File(IcoName(size), outcome.value);
        generated := generated + 1;
      }
      i := i + 1;
    }
    assert sizes[..|sizes|] == sizes;
  }
}

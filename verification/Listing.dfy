/**
 The supervisor's directory listings: one sorted page at a time, continued after the
 last name of the page before.
 */
module Listing {
  import opened Wrappers
  import opened ExecutionErrors

  // Names order by their bytes.
  type Name = string

  predicate Below(a: Name, b: Name) {
    b != [] && (a == [] || a[0] < b[0] || (a[0] == b[0] && Below(a[1..], b[1..])))
  }

  lemma {:induction false} BelowIsIrreflexive(a: Name)
    ensures !Below(a, a)
  {
    if a != [] {
      BelowIsIrreflexive(a[1..]);
    }
  }

  lemma {:induction false} BelowIsTransitive(a: Name, b: Name, c: Name)
    requires Below(a, b) && Below(b, c)
    ensures Below(a, c)
  {
    if a != [] && a[0] == b[0] && b[0] == c[0] {
      BelowIsTransitive(a[1..], b[1..], c[1..]);
    }
  }

  lemma {:induction false} BelowIsTotal(a: Name, b: Name)
    ensures Below(a, b) || a == b || Below(b, a)
  {
    if a != [] && b != [] && a[0] == b[0] {
      BelowIsTotal(a[1..], b[1..]);
      assert a == [a[0]] + a[1..] && b == [b[0]] + b[1..];
    }
  }

  // ---------- one page ----------

  datatype Page = Page(entries: seq<Name>, next: Option<Name>)

  predicate Increasing(names: seq<Name>) {
    forall i, j | 0 <= i < j < |names| :: Below(names[i], names[j])
  }

  predicate After(name: Name, cursor: Option<Name>) {
    cursor.Some? ==> Below(cursor.value, name)
  }

  // The page of a directory after a cursor, said without computing it: the lowest
  // names beyond the cursor, at most `max` of them, and a cursor for more exactly
  // if there are more.
  ghost predicate IsPage(directory: set<Name>, cursor: Option<Name>, max: nat, page: Page) {
    && Increasing(page.entries) && |page.entries| <= max
    && (forall name | name in page.entries :: name in directory && After(name, cursor))
    && (page.next.None? ==> forall name | name in directory && After(name, cursor) :: name in page.entries)
    && (page.next.Some? ==>
          && |page.entries| == max > 0 && page.next.value == page.entries[max - 1]
          && (exists more :: more in directory && Below(page.next.value, more))
          && (forall name | name in directory && After(name, cursor) && !Below(page.next.value, name) ::
                name in page.entries))
  }

  // The names of a directory, in the order `read_dir` gives them: each once.
  ghost predicate Enumerates(names: seq<Name>, directory: set<Name>) {
    && (forall name :: name in names <==> name in directory)
    && forall i, j | 0 <= i < j < |names| :: names[i] != names[j]
  }

  // Puts a name where it belongs.
  function Insert(name: Name, names: seq<Name>): seq<Name> {
    if names == [] || Below(name, names[0]) then [name] + names
    else [names[0]] + Insert(name, names[1..])
  }

  function Sorted(names: seq<Name>): seq<Name> {
    if names == [] then [] else Insert(names[0], Sorted(names[1..]))
  }

  lemma {:induction false} InsertKeepsOrder(name: Name, names: seq<Name>)
    requires Increasing(names) && name !in names
    ensures Increasing(Insert(name, names))
    ensures forall n :: n in Insert(name, names) <==> n == name || n in names
  {
    if names == [] {
    } else if Below(name, names[0]) {
      forall j | 0 < j < |names|
        ensures Below(name, names[j])
      {
        BelowIsTransitive(name, names[0], names[j]);
      }
    } else {
      BelowIsTotal(name, names[0]);
      var rest := Insert(name, names[1..]);
      InsertKeepsOrder(name, names[1..]);
      assert names == [names[0]] + names[1..];
      forall j | 0 <= j < |rest|
        ensures Below(names[0], rest[j])
      {
        assert rest[j] in rest;
        if rest[j] != name {
          var k :| 0 <= k < |names[1..]| && names[1..][k] == rest[j];
          assert Below(names[0], names[k + 1]);
        }
      }
    }
  }

  lemma {:induction false} SortedIsIncreasing(names: seq<Name>)
    requires forall i, j | 0 <= i < j < |names| :: names[i] != names[j]
    ensures Increasing(Sorted(names))
    ensures forall n :: n in Sorted(names) <==> n in names
  {
    if names != [] {
      var rest := names[1..];
      forall i, j | 0 <= i < j < |rest|
        ensures rest[i] != rest[j]
      {
        assert names[i + 1] != names[j + 1];
      }
      SortedIsIncreasing(rest);
      forall k | 0 <= k < |rest|
        ensures rest[k] != names[0]
      {
        assert rest[k] == names[k + 1];
      }
      InsertKeepsOrder(names[0], Sorted(rest));
      assert names == [names[0]] + rest;
    }
  }

  // Sorts, drops what the cursor has passed, truncates, and hands out a cursor if
  // something was cut off.
  method Select(names: seq<Name>, cursor: Option<Name>, max: nat, ghost directory: set<Name>) returns (page: Page)
    requires Enumerates(names, directory) && 0 < max
    ensures IsPage(directory, cursor, max, page)
  {
    var sorted := Sorted(names);
    SortedIsIncreasing(names);
    var retained := sorted;
    if cursor.Some? {
      retained := Retain(sorted, cursor.value);
    }
    var hasMore := |retained| > max;
    var entries := if hasMore then retained[..max] else retained;
    page := Page(entries, if hasMore then Some(entries[max - 1]) else None);
    if hasMore {
      assert Below(retained[max - 1], retained[max]);
      assert retained[max] in directory;
      forall name | name in directory && After(name, cursor) && !Below(page.next.value, name)
        ensures name in entries
      {
        assert name in retained;
        var i :| 0 <= i < |retained| && retained[i] == name;
        if i < max {
          assert name == entries[i];
        } else {
          assert false; // it is above the last entry
        }
      }
    }
  }

  /** `list` on a resolved directory. `resolve` says which entries cannot be resolved
      or described, for the directory may have changed since it was read; the first
      such entry of the page fails it, and nothing else does. */
  method List(
    names: seq<Name>, cursor: Option<Name>, max: nat, resolve: Name -> Option<ErrorCode>, ghost directory: set<Name>)
    returns (result: Result<Page, ErrorCode>)
    requires Enumerates(names, directory)
    ensures result.Success? ==>
      && IsPage(directory, cursor, max, result.value)
      && forall name | name in result.value.entries :: resolve(name).None?
    ensures result.Failure? && 0 < max ==> exists page: Page, k: nat ::
      && IsPage(directory, cursor, max, page) && k < |page.entries|
      && resolve(page.entries[k]) == Some(result.error)
      && forall i | 0 <= i < k :: resolve(page.entries[i]).None?
    ensures max == 0 ==> result == Failure(InvalidRequest)
  {
    if max == 0 {
      return Failure(InvalidRequest);
    }
    var page := Select(names, cursor, max, directory);
    for k := 0 to |page.entries|
      invariant forall i | 0 <= i < k :: resolve(page.entries[i]).None?
    {
      var failed := resolve(page.entries[k]);
      if failed.Some? {
        return Failure(failed.value);
      }
    }
    return Success(page);
  }

  // Vec::retain of the names after a cursor.
  method Retain(names: seq<Name>, cursor: Name) returns (retained: seq<Name>)
    requires Increasing(names)
    ensures Increasing(retained)
    ensures forall name :: name in retained <==> name in names && Below(cursor, name)
  {
    retained := [];
    for i := 0 to |names|
      invariant Increasing(retained)
      invariant forall name :: name in retained <==> name in names[..i] && Below(cursor, name)
      invariant i < |names| ==> forall name | name in retained :: Below(name, names[i])
    {
      assert names[..i + 1] == names[..i] + [names[i]];
      ghost var before := retained;
      if Below(cursor, names[i]) {
        retained := retained + [names[i]];
      }
      forall name | name in retained && i + 1 < |names|
        ensures Below(name, names[i + 1])
      {
        assert Below(names[i], names[i + 1]);
        if name in before {
          BelowIsTransitive(name, names[i], names[i + 1]);
        }
      }
    }
    assert names[..|names|] == names;
  }

  // ---------- following cursors ----------

  // Pages obtained by following cursors, each from the directory as it was then.
  ghost predicate Follows(directories: seq<set<Name>>, cursor: Option<Name>, max: nat, pages: seq<Page>)
    decreases |pages|
  {
    && |directories| == |pages|
    && (pages != [] ==>
          && IsPage(directories[0], cursor, max, pages[0])
          && (|pages| > 1 ==>
                pages[0].next.Some? && Follows(directories[1..], pages[0].next, max, pages[1..])))
  }

  // ... up to a page without a cursor.
  predicate ToTheEnd(pages: seq<Page>) {
    pages != [] && pages[|pages| - 1].next.None?
  }

  function Entries(pages: seq<Page>): seq<Name> {
    if pages == [] then [] else pages[0].entries + Entries(pages[1..])
  }

  lemma AfterNext(page: Page, directory: set<Name>, cursor: Option<Name>, max: nat, name: Name)
    requires IsPage(directory, cursor, max, page) && page.next.Some? && Below(page.next.value, name)
    ensures After(name, cursor)
    ensures forall entry | entry in page.entries :: Below(entry, name)
  {
    var last := page.next.value;
    assert last in page.entries && After(last, cursor);
    if cursor.Some? {
      BelowIsTransitive(cursor.value, last, name);
    }
    forall entry | entry in page.entries
      ensures Below(entry, name)
    {
      var i :| 0 <= i < |page.entries| && page.entries[i] == entry;
      if i < |page.entries| - 1 {
        BelowIsTransitive(entry, last, name);
      }
    }
  }

  /** Pages list names in strictly increasing order, whatever happens to the
      directory in between: nothing is listed twice. */
  lemma {:induction false} PagesIncrease(
    directories: seq<set<Name>>, cursor: Option<Name>, max: nat, pages: seq<Page>)
    requires Follows(directories, cursor, max, pages)
    ensures Increasing(Entries(pages))
    ensures forall name | name in Entries(pages) :: After(name, cursor)
    decreases |pages|
  {
    if |pages| == 1 {
      assert Entries(pages[1..]) == [];
      assert Entries(pages) == pages[0].entries;
    } else if |pages| > 1 {
      var first := pages[0];
      var rest := Entries(pages[1..]);
      PagesIncrease(directories[1..], first.next, max, pages[1..]);
      forall name | name in rest
        ensures After(name, cursor)
        ensures forall entry | entry in first.entries :: Below(entry, name)
      {
        AfterNext(first, directories[0], cursor, max, name);
      }
      var all := Entries(pages);
      forall i, j | 0 <= i < j < |all|
        ensures Below(all[i], all[j])
      {
        if i < |first.entries| <= j {
          assert all[i] in first.entries && all[j] in rest;
        } else if |first.entries| <= i {
          assert all[i] == rest[i - |first.entries|] && all[j] == rest[j - |first.entries|];
        }
      }
    }
  }

  /** A name that is in the directory at every page is listed, once the cursors have
      been followed to the end. */
  lemma {:induction false} PresentThroughoutIsListed(
    directories: seq<set<Name>>, cursor: Option<Name>, max: nat, pages: seq<Page>, name: Name)
    requires Follows(directories, cursor, max, pages) && ToTheEnd(pages)
    requires After(name, cursor) && forall i | 0 <= i < |directories| :: name in directories[i]
    ensures name in Entries(pages)
    decreases |pages|
  {
    var first := pages[0];
    assert name in directories[0];
    if |pages| == 1 {
      assert Entries(pages) == first.entries + Entries(pages[1..]);
    } else if Below(first.next.value, name) {
      forall i | 0 <= i < |directories[1..]|
        ensures name in directories[1..][i]
      {
        assert directories[1..][i] == directories[i + 1];
      }
      PresentThroughoutIsListed(directories[1..], first.next, max, pages[1..], name);
    }
  }

  // Nothing is made up: what is listed was in the directory at some page.
  lemma {:induction false} ListedWasPresent(
    directories: seq<set<Name>>, cursor: Option<Name>, max: nat, pages: seq<Page>, name: Name)
    returns (i: nat)
    requires Follows(directories, cursor, max, pages) && name in Entries(pages)
    ensures i < |pages| && name in pages[i].entries && name in directories[i]
    decreases |pages|
  {
    if name in pages[0].entries {
      i := 0;
    } else {
      var later := ListedWasPresent(directories[1..], pages[0].next, max, pages[1..], name);
      i := later + 1;
    }
  }

  // ---------- a directory that does not change ----------

  function Beyond(directory: set<Name>, cursor: Option<Name>): set<Name> {
    set name | name in directory && After(name, cursor)
  }

  lemma PageAdvances(directory: set<Name>, cursor: Option<Name>, max: nat, page: Page)
    requires IsPage(directory, cursor, max, page) && page.next.Some?
    ensures Beyond(directory, page.next) < Beyond(directory, cursor)
  {
    var last := page.next.value;
    assert last in page.entries;
    BelowIsIrreflexive(last);
    forall name | name in Beyond(directory, page.next)
      ensures name in Beyond(directory, cursor)
    {
      AfterNext(page, directory, cursor, max, name);
    }
    assert last in Beyond(directory, cursor) && last !in Beyond(directory, page.next);
  }

  /** Following cursors through an unchanging directory comes to an end, after full
      pages only, and lists exactly its names, in order. */
  method ListAll(names: seq<Name>, max: nat, resolve: Name -> Option<ErrorCode>, ghost directory: set<Name>)
    returns (pages: seq<Page>)
    requires Enumerates(names, directory) && 0 < max
    requires forall name | name in directory :: resolve(name).None?
    ensures Follows(seq(|pages|, _ => directory), None, max, pages) && ToTheEnd(pages)
    ensures Increasing(Entries(pages))
    ensures forall name :: name in Entries(pages) <==> name in directory
    ensures forall i | 0 <= i < |pages| - 1 :: |pages[i].entries| == max
    ensures |pages| > 1 ==> pages[|pages| - 1].entries != []
  {
    pages := ListFrom(names, None, max, resolve, directory);
    ghost var same := seq(|pages|, _ => directory);
    PagesIncrease(same, None, max, pages);
    forall name | name in directory
      ensures name in Entries(pages)
    {
      PresentThroughoutIsListed(same, None, max, pages, name);
    }
    forall name | name in Entries(pages)
      ensures name in directory
    {
      var i := ListedWasPresent(same, None, max, pages, name);
      assert same[i] == directory;
    }
  }

  method ListFrom(
    names: seq<Name>, cursor: Option<Name>, max: nat, resolve: Name -> Option<ErrorCode>, ghost directory: set<Name>)
    returns (pages: seq<Page>)
    requires Enumerates(names, directory) && 0 < max
    requires forall name | name in directory :: resolve(name).None?
    ensures Follows(seq(|pages|, _ => directory), cursor, max, pages) && ToTheEnd(pages)
    ensures forall i | 0 <= i < |pages| - 1 :: |pages[i].entries| == max
    ensures |pages| > 1 || (exists name :: name in Beyond(directory, cursor)) ==> pages[|pages| - 1].entries != []
    decreases Beyond(directory, cursor)
  {
    var result := List(names, cursor, max, resolve, directory);
    assert result.Success?;
    var page := result.value;
    if page.next.None? {
      pages := [page];
    } else {
      PageAdvances(directory, cursor, max, page);
      var rest := ListFrom(names, page.next, max, resolve, directory);
      pages := [page] + rest;
      assert seq(|pages|, _ => directory)[1..] == seq(|rest|, _ => directory);
      assert pages[1..] == rest;
      ghost var more :| more in directory && Below(page.next.value, more);
      assert more in Beyond(directory, page.next);
    }
  }
}

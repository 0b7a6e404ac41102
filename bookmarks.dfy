/**
 * The bookmark list manager: an ordered in-memory list of `{name, url}`
 * records, the copy of it kept in the browser's local storage under the key
 * `bookmarks`, and the operations that add to it (after validation and a
 * case-insensitive duplicate check) and delete from it.
 */
module Bookmarks {
  import opened JsText
  import opened UrlPattern

  datatype Option<T> = None | Some(value: T)

  datatype Bookmark = Bookmark(name: string, url: string)

  // ---------------------------------------------------------------------
  // Validation verdicts

  /** The three checks of `addBookmark` that end in an alert: non-empty fields, a name of at least 3 characters, a valid URL. */
  predicate AcceptableInput(name: string, url: string) {
    name != [] && url != [] && |name| >= 3 && IsValidURL(url)
  }

  /** The live verdict on the name field: its trimmed value has at least 3 characters. */
  predicate NameFieldValid(value: string) {
    |Trim(value)| >= 3
  }

  /** The live verdict on the URL field: its raw, untrimmed value passes `isValidURL`. */
  predicate UrlFieldValid(value: string) {
    IsValidURL(value)
  }

  // ---------------------------------------------------------------------
  // The list invariant

  /** `b` collides with a new entry: same lower-cased name or same lower-cased URL. */
  predicate Clashes(b: Bookmark, name: string, url: string) {
    Lower(b.name) == Lower(name) || Lower(b.url) == Lower(url)
  }

  predicate ClashesWithAny(bs: seq<Bookmark>, name: string, url: string) {
    exists i :: 0 <= i < |bs| && Clashes(bs[i], name, url)
  }

  /** No two entries share a lower-cased name, and no two share a lower-cased URL. */
  predicate Distinct(bs: seq<Bookmark>) {
    forall i, j :: 0 <= i < j < |bs| ==> !Clashes(bs[i], bs[j].name, bs[j].url)
  }

  /** What `addBookmark` guarantees of every entry it creates. */
  predicate WellFormed(b: Bookmark) {
    |b.name| >= 3 && !IsAsciiLower(b.name[0]) && IsValidURL(b.url)
  }

  predicate AllWellFormed(bs: seq<Bookmark>) {
    forall i :: 0 <= i < |bs| ==> WellFormed(bs[i])
  }

  /** The entry `addBookmark` appends for an accepted `name` and `url`. */
  function NewEntry(name: string, url: string): (b: Bookmark)
    requires AcceptableInput(name, url)
    ensures WellFormed(b)
    ensures Lower(b.name) == Lower(name) && b.url == url
    ensures |b.name| == |name| && b.name[1..] == name[1..]
  {
    Bookmark(Capitalize(name), url)
  }

  /**
   * The checks that alert, stated without the automaton: a name of at least 3
   * characters (which is then not empty) and a URL of the shape `isValidURL`
   * accepts (which is then not empty either).
   */
  lemma AcceptableInputCharacterised(name: string, url: string)
    ensures AcceptableInput(name, url) <==> |name| >= 3 && UrlShape(url)
  {
    IsValidURLCharacterised(url);
  }

  /** The live name verdict holds when at least 3 characters lie between the leading and the trailing whitespace. */
  lemma NameFieldValidCharacterised(value: string)
    ensures NameFieldValid(value) <==> LeadingSpace(value) + 3 + TrailingSpace(value) <= |value|
  {
    TrimLength(value);
  }

  /** The live URL verdict accepts exactly the URL shape, so an accepted field value starts with the scheme's `h` and has at least 9 characters. */
  lemma UrlFieldValidCharacterised(value: string)
    ensures UrlFieldValid(value) <==> UrlShape(value)
    ensures UrlFieldValid(value) ==> 9 <= |value| && (value[0] == 'h' || value[0] == 'H')
  {
    IsValidURLCharacterised(value);
    if UrlFieldValid(value) {
      assert LowerChar(value[0]) == 'h';
    }
  }

  /** Clashing depends only on the lower-cased texts, and every entry clashes with its own name and URL. */
  lemma ClashesIgnoresCase(b: Bookmark, name: string, url: string, name': string, url': string)
    requires Lower(name) == Lower(name') && Lower(url) == Lower(url')
    ensures Clashes(b, name, url) <==> Clashes(b, name', url')
    ensures Clashes(b, b.name, url) && Clashes(b, name, b.url)
  {
  }

  /** The duplicate scan over a list with one more entry finds a clash exactly when the shorter list or the new entry has one. */
  lemma ClashesWithAnyAppend(bs: seq<Bookmark>, b: Bookmark, name: string, url: string)
    ensures ClashesWithAny(bs + [b], name, url) <==> ClashesWithAny(bs, name, url) || Clashes(b, name, url)
  {
    var r := bs + [b];
    if ClashesWithAny(bs, name, url) {
      var i :| 0 <= i < |bs| && Clashes(bs[i], name, url);
      assert r[i] == bs[i];
    }
    if Clashes(b, name, url) {
      assert r[|bs|] == b;
    }
    if ClashesWithAny(r, name, url) {
      var i :| 0 <= i < |r| && Clashes(r[i], name, url);
      if i < |bs| {
        assert r[i] == bs[i];
      }
    }
  }

  /**
   * Appending an entry that clashes with none of a distinct list keeps the
   * list distinct; afterwards any input with the same name, or with the same
   * URL, is a duplicate.
   */
  lemma AppendPreservesDistinct(bs: seq<Bookmark>, name: string, url: string)
    requires Distinct(bs)
    requires AcceptableInput(name, url)
    requires !ClashesWithAny(bs, name, url)
    ensures Distinct(bs + [NewEntry(name, url)])
    ensures forall u :: ClashesWithAny(bs + [NewEntry(name, url)], name, u)
    ensures forall n :: ClashesWithAny(bs + [NewEntry(name, url)], n, url)
  {
    var r := bs + [NewEntry(name, url)];
    forall i, j | 0 <= i < j < |r|
      ensures !Clashes(r[i], r[j].name, r[j].url)
    {
      if j == |bs| {
        assert !Clashes(bs[i], name, url);
      } else {
        assert r[i] == bs[i] && r[j] == bs[j];
      }
    }
    assert r[|bs|] == NewEntry(name, url);
    forall u
      ensures ClashesWithAny(r, name, u)
    {
      assert Clashes(r[|bs|], name, u);
    }
    forall n
      ensures ClashesWithAny(r, n, url)
    {
      assert Clashes(r[|bs|], n, url);
    }
  }

  // ---------------------------------------------------------------------
  // Deletion: `Array.prototype.splice(index, 1)`

  /** Where `splice` starts for an integer `index`: counted from the end when negative, clamped to `[0, n]`. */
  function SpliceStart(index: int, n: nat): (start: nat)
    ensures start <= n
    ensures -(n as int) <= index < n ==> start == index % n
    ensures index >= n ==> start == n
    ensures index < -(n as int) ==> start == 0
  {
    if index < 0 then (if n + index < 0 then 0 else n + index)
    else if index < n then index else n
  }

  /** `bs.splice(index, 1)` applied to `bs`: the element at the start position, if any, is removed. */
  function SpliceOne(bs: seq<Bookmark>, index: int): (r: seq<Bookmark>)
    ensures var s := SpliceStart(index, |bs|);
      && (s < |bs| ==> |r| == |bs| - 1)
      && (s == |bs| ==> r == bs)
      && (forall k :: 0 <= k < s && k < |r| ==> r[k] == bs[k])
      && (forall k :: s <= k < |r| ==> r[k] == bs[k + 1])
  {
    var s := SpliceStart(index, |bs|);
    if s < |bs| then bs[..s] + bs[s + 1..] else bs
  }

  /** Removing an entry at any index keeps a distinct list distinct. */
  lemma SplicePreservesDistinct(bs: seq<Bookmark>, index: int)
    requires Distinct(bs)
    ensures Distinct(SpliceOne(bs, index))
  {
    var r := SpliceOne(bs, index);
    var s := SpliceStart(index, |bs|);
    forall i, j | 0 <= i < j < |r|
      ensures !Clashes(r[i], r[j].name, r[j].url)
    {
      var i' := if i < s then i else i + 1;
      var j' := if j < s then j else j + 1;
      assert r[i] == bs[i'] && r[j] == bs[j'];
    }
  }

  /** Removing an entry at any index keeps every remaining entry well formed. */
  lemma SplicePreservesWellFormed(bs: seq<Bookmark>, index: int)
    requires AllWellFormed(bs)
    ensures AllWellFormed(SpliceOne(bs, index))
  {
    var r := SpliceOne(bs, index);
    var s := SpliceStart(index, |bs|);
    forall i | 0 <= i < |r|
      ensures WellFormed(r[i])
    {
      assert r[i] == bs[if i < s then i else i + 1];
    }
  }

  /**
   * For an index the list actually has, counted from the front or (when
   * negative) from the back, deletion removes exactly that entry and keeps
   * the order of the rest.
   */
  lemma SpliceInRange(bs: seq<Bookmark>, index: int)
    requires -|bs| <= index < |bs|
    ensures SpliceOne(bs, index) == bs[..index % |bs|] + bs[index % |bs| + 1..]
    ensures |SpliceOne(bs, index)| == |bs| - 1
    ensures multiset(SpliceOne(bs, index)) + multiset{bs[index % |bs|]} == multiset(bs)
  {
    var k := index % |bs|;
    assert bs == bs[..k] + [bs[k]] + bs[k + 1..];
  }

  /** An index past the end removes nothing; one before the start of a non-empty list removes the first entry. */
  lemma SpliceOutOfRange(bs: seq<Bookmark>, index: int)
    ensures index >= |bs| ==> SpliceOne(bs, index) == bs
    ensures index < -|bs| && bs != [] ==> SpliceOne(bs, index) == bs[1..]
  {
  }

  // ---------------------------------------------------------------------
  // The two validation paths: live field feedback and submission

  /** On the name, submission (trim, then the checks of `addBookmark`) and the live field verdict agree. */
  lemma NameVerdictsAgree(rawName: string)
    ensures (Trim(rawName) != [] && |Trim(rawName)| >= 3) <==> NameFieldValid(rawName)
  {
  }

  /**
   * On the URL the live verdict judges the raw value and submission the
   * trimmed one. They agree whenever the raw value does not end in
   * whitespace.
   */
  lemma UrlVerdictsAgree(rawUrl: string)
    requires UrlFieldValid(rawUrl)
    requires !IsWhitespace(rawUrl[|rawUrl| - 1])
    ensures IsValidURL(Trim(rawUrl))
  {
    IsValidURLCharacterised(rawUrl);
    assert LowerChar(rawUrl[0]) == 'h';
    TrimOfTrimmed(rawUrl);
  }

  /**
   * A space in the one position the pattern's `.` covers is shown as valid
   * in the live feedback, but trimmed away on submission, which then refuses
   * the URL.
   */
  lemma TrailingSpaceShownValidButRefused(h: char)
    requires IsHostStart(h)
    ensures UrlFieldValid("https://" + [h, ' '])
    ensures !IsValidURL(Trim("https://" + [h, ' ']))
  {
    var u, w := "https://" + [h, ' '], "https://" + [h];
    assert HasSchemeCI(u, "https://") && AfterScheme(u[8..]);
    IsValidURLCharacterised(u);
    assert LeadingSpace(u) == 0 && u[0..] == u;
    assert u[..|u| - 1] == w;
    assert TrailingSpace(w) == 0;
    assert TrailingSpace(u) == 1;
    assert w[4] == 's';
    assert !HasSchemeCI(w, "http://");
    IsValidURLCharacterised(w);
  }

  /**
   * A valid URL typed with a leading space is shown as invalid in the live
   * feedback, but accepted on submission, which trims it first.
   */
  lemma LeadingSpaceShownInvalidButAccepted(url: string)
    requires IsValidURL(url)
    requires !IsWhitespace(url[|url| - 1])
    ensures !UrlFieldValid([' '] + url)
    ensures IsValidURL(Trim([' '] + url))
  {
    var v := [' '] + url;
    IsValidURLCharacterised(url);
    IsValidURLCharacterised(v);
    assert LowerChar(url[0]) == 'h';
    assert v[1..] == url;
    assert LeadingSpace(url) == 0;
    assert LeadingSpace(v) == 1;
    assert TrailingSpace(url) == 0;
    assert Trim(v) == url;
  }

  // ---------------------------------------------------------------------
  // The manager

  class BookmarkStore {
    /** The in-memory list, in insertion order; position = display position - 1. */
    var bookmarks: seq<Bookmark>
    /** The value under the local-storage key `bookmarks` (None when the key is absent). */
    var stored: Option<seq<Bookmark>>
    /** How many validation alerts have been shown. */
    var alerts: nat

    /** No duplicates and every entry well formed. */
    ghost predicate Consistent()
      reads this
    {
      Distinct(bookmarks) && AllWellFormed(bookmarks)
    }

    /** Page load: the list is the stored one if the key is present, empty otherwise. */
    constructor Load(saved: Option<seq<Bookmark>>)
      ensures bookmarks == (if saved.Some? then saved.value else [])
      ensures stored == saved && alerts == 0
      ensures saved.None? ==> Consistent()
    {
      bookmarks := if saved.Some? then saved.value else [];
      stored := saved;
      alerts := 0;
    }

    /** `bookmarks.some(...)`: does any entry clash with `name` or `url`? */
    method IsDuplicate(name: string, url: string) returns (dup: bool)
      ensures dup <==> ClashesWithAny(bookmarks, name, url)
    {
      var lname, lurl := Lower(name), Lower(url);
      var i := 0;
      while i < |bookmarks|
        invariant 0 <= i <= |bookmarks|
        invariant forall k :: 0 <= k < i ==> !Clashes(bookmarks[k], name, url)
      {
        var b := bookmarks[i];
        if Lower(b.name) == lname || Lower(b.url) == lurl {
          return true;
        }
        i := i + 1;
      }
      return false;
    }

    /**
     * `addBookmark(name, url)`: refuse with an alert when a field is empty,
     * the name is shorter than 3 or the URL is not valid; refuse silently on
     * a duplicate; otherwise append the capitalised entry and store the list.
     */
    method Add(name: string, url: string) returns (ok: bool)
      modifies this
      ensures !AcceptableInput(name, url) ==>
        !ok && bookmarks == old(bookmarks) && stored == old(stored) && alerts == old(alerts) + 1
      ensures AcceptableInput(name, url) && ClashesWithAny(old(bookmarks), name, url) ==>
        !ok && bookmarks == old(bookmarks) && stored == old(stored) && alerts == old(alerts)
      ensures AcceptableInput(name, url) && !ClashesWithAny(old(bookmarks), name, url) ==>
        ok && bookmarks == old(bookmarks) + [NewEntry(name, url)]
        && stored == Some(bookmarks) && alerts == old(alerts)
      ensures old(Consistent()) ==> Consistent()
    {
      if name == [] || url == [] {
        alerts := alerts + 1;
        return false;
      }
      if |name| < 3 {
        alerts := alerts + 1;
        return false;
      }
      if !IsValidURL(url) {
        alerts := alerts + 1;
        return false;
      }
      var dup := IsDuplicate(name, url);
      if dup {
        return false;
      }
      if Distinct(bookmarks) {
        AppendPreservesDistinct(bookmarks, name, url);
      }
      bookmarks := bookmarks + [Bookmark(Capitalize(name), url)];
      stored := Some(bookmarks);
      return true;
    }

    /** `deleteBookmark(index)`: `splice(index, 1)`, then store the list. */
    method Delete(index: int)
      modifies this
      ensures bookmarks == SpliceOne(old(bookmarks), index)
      ensures stored == Some(bookmarks) && alerts == old(alerts)
      ensures old(Consistent()) ==> Consistent()
    {
      if Distinct(bookmarks) {
        SplicePreservesDistinct(bookmarks, index);
      }
      if AllWellFormed(bookmarks) {
        SplicePreservesWellFormed(bookmarks, index);
      }
      bookmarks := SpliceOne(bookmarks, index);
      stored := Some(bookmarks);
    }

    /** The form's submit handler: trim both fields, then `addBookmark`. */
    method Submit(rawName: string, rawUrl: string) returns (ok: bool)
      modifies this
      ensures var name, url := Trim(rawName), Trim(rawUrl);
        && (!AcceptableInput(name, url) ==>
              !ok && bookmarks == old(bookmarks) && stored == old(stored) && alerts == old(alerts) + 1)
        && (AcceptableInput(name, url) && ClashesWithAny(old(bookmarks), name, url) ==>
              !ok && bookmarks == old(bookmarks) && stored == old(stored) && alerts == old(alerts))
        && (AcceptableInput(name, url) && !ClashesWithAny(old(bookmarks), name, url) ==>
              ok && bookmarks == old(bookmarks) + [NewEntry(name, url)]
              && stored == Some(bookmarks) && alerts == old(alerts))
      ensures old(Consistent()) ==> Consistent()
    {
      ok := Add(Trim(rawName), Trim(rawUrl));
    }
  }
}

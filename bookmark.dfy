/** The bookmark store: an ordered list of (name, path) records kept in one file,
    read whole and rewritten whole by every change. */
module Bookmarks {
  import opened FileSystem

  /** One record of the store; `Bookmark::new` is the datatype constructor. */
  datatype Bookmark = Bookmark(name: string, path: string)

  /** The failures the manager and the command layer report. `Unreadable` stands
      for any failure to open or decode an existing store file. */
  datatype Error =
    | NotFound(name: string)
    | AlreadyRegistered(name: string, path: string)
    | InvalidPath(name: string, path: string)
    | Unreadable

  datatype Option<T> = None | Some(value: T)

  datatype Result<T> = Ok(value: T) | Err(error: Error) {
    /** The same outcome with the success value dropped, as `?; Ok(())` does. */
    function Discard(): (r: Result<()>)
      ensures r.Err? <==> Err?
      ensures Err? ==> r.error == error
    {
      match this
      case Ok(_) => Ok(())
      case Err(e) => Err(e)
    }
  }

  /** The one-line text each error is shown as; it begins with the bookmark name. */
  function Message(e: Error): (m: string)
    ensures !e.Unreadable? ==> |e.name| < |m| && m[..|e.name|] == e.name
  {
    match e
    case NotFound(n) => n + " is not found."
    case AlreadyRegistered(n, p) => n + " is already registered. (" + n + " = " + p + ")"
    case InvalidPath(n, p) => n + " (" + p + ") is invalid directory path"
    case Unreadable => "bookmark file could not be read"
  }

  /** Some entry of `bs` is called `name`. */
  ghost predicate Registered(bs: seq<Bookmark>, name: string) {
    exists i :: 0 <= i < |bs| && bs[i].name == name
  }

  /** No two entries of `bs` share a name. */
  ghost predicate Unique(bs: seq<Bookmark>) {
    forall i, j :: 0 <= i < j < |bs| ==> bs[i].name != bs[j].name
  }

  /** The index of the first entry called `name` (exact, case-sensitive match). */
  function Position(bs: seq<Bookmark>, name: string): (r: Option<nat>)
    ensures r.None? <==> !Registered(bs, name)
    ensures r.Some? ==> r.value < |bs| && bs[r.value].name == name
    ensures r.Some? ==> forall j :: 0 <= j < r.value ==> bs[j].name != name
  {
    if bs == [] then None
    else if bs[0].name == name then Some(0)
    else
      match Position(bs[1..], name)
      case None => None
      case Some(k) => Some(k + 1)
  }

  /** The path of the first entry called `name`, or `NotFound(name)`. */
  function Lookup(bs: seq<Bookmark>, name: string): (r: Result<string>)
    ensures r.Err? <==> !Registered(bs, name)
    ensures r.Err? ==> r.error == NotFound(name)
    ensures r.Ok? ==> exists i :: 0 <= i < |bs| && bs[i].name == name && r.value == bs[i].path &&
                                   forall j :: 0 <= j < i ==> bs[j].name != name
  {
    match Position(bs, name)
    case None => Err(NotFound(name))
    case Some(i) => Ok(bs[i].path)
  }

  /** The list after appending `b`, or the duplicate entry that refuses it. */
  function Insert(bs: seq<Bookmark>, b: Bookmark): (r: Result<seq<Bookmark>>)
    ensures r.Ok? <==> !Registered(bs, b.name)
    ensures r.Ok? ==> |r.value| == |bs| + 1 && r.value[..|bs|] == bs && r.value[|bs|] == b
    ensures r.Err? ==> exists i :: 0 <= i < |bs| && bs[i].name == b.name &&
                                   (forall j :: 0 <= j < i ==> bs[j].name != b.name) &&
                                   r.error == AlreadyRegistered(bs[i].name, bs[i].path)
  {
    match Position(bs, b.name)
    case Some(i) => Err(AlreadyRegistered(bs[i].name, bs[i].path))
    case None => Ok(bs + [b])
  }

  /** The list without its first entry called `name`, or `NotFound(name)`. */
  function Remove(bs: seq<Bookmark>, name: string): (r: Result<seq<Bookmark>>)
    ensures r.Err? <==> !Registered(bs, name)
    ensures r.Err? ==> r.error == NotFound(name)
    ensures r.Ok? ==> exists i :: 0 <= i < |bs| && bs[i].name == name &&
                                   (forall j :: 0 <= j < i ==> bs[j].name != name) &&
                                   |r.value| == |bs| - 1 &&
                                   r.value[..i] == bs[..i] && r.value[i..] == bs[i + 1..]
  {
    match Position(bs, name)
    case None => Err(NotFound(name))
    case Some(i) => Ok(bs[..i] + bs[i + 1..])
  }

  /** A run of inserts, one after another, stopping at the first refusal. */
  function InsertAll(bs: seq<Bookmark>, items: seq<Bookmark>): Result<seq<Bookmark>>
    decreases |items|
  {
    if items == [] then Ok(bs)
    else
      match Insert(bs, items[0])
      case Err(e) => Err(e)
      case Ok(next) => InsertAll(next, items[1..])
  }

  /** Where a name is in an extended list: its old place, or the new last one. */
  lemma {:induction false} PositionAppend(bs: seq<Bookmark>, b: Bookmark, name: string)
    ensures Position(bs + [b], name) ==
              if Position(bs, name).Some? then Position(bs, name)
              else if b.name == name then Some(|bs|)
              else None
  {
    if bs != [] {
      assert (bs + [b])[1..] == bs[1..] + [b];
      PositionAppend(bs[1..], b, name);
    }
  }

  /** After an insert, the new name finds the new path and every other name finds
      what it found before. */
  lemma LookupAfterInsert(bs: seq<Bookmark>, b: Bookmark, name: string)
    requires Insert(bs, b).Ok?
    ensures Lookup(Insert(bs, b).value, name) == if name == b.name then Ok(b.path) else Lookup(bs, name)
  {
  }

  /** Inserting a fresh name and removing it again gives back the list it started from. */
  lemma RemoveAfterInsert(bs: seq<Bookmark>, b: Bookmark)
    requires Insert(bs, b).Ok?
    ensures Remove(Insert(bs, b).value, b.name) == Ok(bs)
  {
    PositionAppend(bs, b, b.name);
    assert (bs + [b])[..|bs|] + (bs + [b])[|bs| + 1..] == bs;
  }

  /** Inserting keeps names unique. */
  lemma InsertKeepsUnique(bs: seq<Bookmark>, b: Bookmark)
    requires Unique(bs) && Insert(bs, b).Ok?
    ensures Unique(Insert(bs, b).value)
  {
  }

  /** Removing keeps names unique. */
  lemma RemoveKeepsUnique(bs: seq<Bookmark>, name: string)
    requires Unique(bs) && Remove(bs, name).Ok?
    ensures Unique(Remove(bs, name).value)
  {
  }

  /** An entry of the list left by removing entry `i`: those before `i` keep their
      index, those after it move down by one. */
  lemma RemovedAt(bs: seq<Bookmark>, i: nat, k: nat)
    requires i < |bs| && k < |bs| - 1
    ensures (bs[..i] + bs[i + 1..])[k] == bs[if k < i then k else k + 1]
  {
  }

  /** With unique names, a removed name is gone and every other name still finds
      the path it found before. */
  lemma LookupAfterRemove(bs: seq<Bookmark>, name: string, other: string)
    requires Unique(bs) && Remove(bs, name).Ok?
    ensures Lookup(Remove(bs, name).value, other) ==
              if other == name then Err(NotFound(name)) else Lookup(bs, other)
  {
    var i := Position(bs, name).value;
    var after := bs[..i] + bs[i + 1..];
    assert Remove(bs, name) == Ok(after);
    if other == name {
      forall k | 0 <= k < |after| ensures after[k].name != name {
        RemovedAt(bs, i, k);
      }
    } else {
      LookupAfterRemoveOther(bs, i, other);
    }
  }

  /** Removing entry `i` leaves what every name other than its own finds unchanged. */
  lemma LookupAfterRemoveOther(bs: seq<Bookmark>, i: nat, other: string)
    requires i < |bs| && bs[i].name != other
    ensures Lookup(bs[..i] + bs[i + 1..], other) == Lookup(bs, other)
  {
    var after := bs[..i] + bs[i + 1..];
    match Position(bs, other)
    case None =>
      forall k | 0 <= k < |after| ensures after[k].name != other {
        RemovedAt(bs, i, k);
      }
      assert Position(after, other) == None;
    case Some(j) =>
      var j' := if j < i then j else j - 1;
      forall k | 0 <= k < j' ensures after[k].name != other {
        RemovedAt(bs, i, k);
      }
      RemovedAt(bs, i, j');
      assert Position(after, other) == Some(j');
      assert Lookup(after, other) == Ok(bs[j].path);
  }

  /** Inserting entries with distinct, fresh names one after another accepts every
      one of them and keeps them in order after the old entries. */
  lemma {:induction false} InsertAllAppends(bs: seq<Bookmark>, items: seq<Bookmark>)
    requires Unique(items)
    requires forall k :: 0 <= k < |items| ==> !Registered(bs, items[k].name)
    ensures InsertAll(bs, items) == Ok(bs + items)
    decreases |items|
  {
    if items == [] {
      assert bs + items == bs;
    } else {
      var next := bs + [items[0]];
      assert Insert(bs, items[0]) == Ok(next);
      StillFresh(bs, items);
      InsertAllAppends(next, items[1..]);
      assert next + items[1..] == bs + items;
    }
  }

  /** After inserting entries with distinct, fresh names, each name finds the path it
      was inserted with. */
  lemma InsertAllFinds(bs: seq<Bookmark>, items: seq<Bookmark>)
    requires Unique(items)
    requires forall k :: 0 <= k < |items| ==> !Registered(bs, items[k].name)
    ensures InsertAll(bs, items).Ok?
    ensures forall k :: 0 <= k < |items| ==> Lookup(InsertAll(bs, items).value, items[k].name) == Ok(items[k].path)
  {
    InsertAllAppends(bs, items);
    forall k | 0 <= k < |items| ensures Lookup(bs + items, items[k].name) == Ok(items[k].path) {
      LookupAfterAppend(bs, items, k);
    }
  }

  /** After the first of a run of distinct, fresh names is inserted, the rest of the
      run is still distinct and fresh. */
  lemma StillFresh(bs: seq<Bookmark>, items: seq<Bookmark>)
    requires items != [] && Unique(items)
    requires forall k :: 0 <= k < |items| ==> !Registered(bs, items[k].name)
    ensures Unique(items[1..])
    ensures forall k :: 0 <= k < |items| - 1 ==> !Registered(bs + [items[0]], items[1..][k].name)
  {
  }

  /** In `bs + items`, a fresh name that first appears at `items[k]` finds its path. */
  lemma LookupAfterAppend(bs: seq<Bookmark>, items: seq<Bookmark>, k: nat)
    requires k < |items| && !Registered(bs, items[k].name)
    requires forall j :: 0 <= j < k ==> items[j].name != items[k].name
    ensures Lookup(bs + items, items[k].name) == Ok(items[k].path)
  {
    var all := bs + items;
    var name := items[k].name;
    assert all[|bs| + k] == items[k];
    forall j | 0 <= j < |bs| + k ensures all[j].name != name {
      if j < |bs| {
        assert all[j] == bs[j];
      } else {
        assert all[j] == items[j - |bs|];
      }
    }
    assert Position(all, name) == Some(|bs| + k);
  }

  /** The bookmark manager. The store file is modelled by its state: whether it
      exists, whether it can be opened and decoded, and the list it holds. The
      file's location is fixed when the manager is made. */
  class Manager {
    const filePath: string
    var fileExists: bool
    var fileReadable: bool
    var contents: seq<Bookmark>

    /** A manager for the store at `filePath`, whose file is in the given state. */
    constructor (filePath: string, fileExists: bool, fileReadable: bool, contents: seq<Bookmark>)
      ensures this.filePath == filePath && this.fileExists == fileExists
      ensures this.fileReadable == fileReadable && this.contents == contents
    {
      this.filePath := filePath;
      this.fileExists := fileExists;
      this.fileReadable := fileReadable;
      this.contents := contents;
    }

    /** The whole list: empty when the file does not exist, an error when it exists
        but cannot be read. */
    function ReadBookmarks(): (r: Result<seq<Bookmark>>)
      reads this
      ensures !fileExists ==> r == Ok([])
      ensures fileExists ==> (r.Ok? <==> fileReadable)
      ensures fileExists && r.Ok? ==> r.value == contents
      ensures r.Err? ==> r.error == Unreadable
    {
      if !fileExists then Ok([])
      else if !fileReadable then Err(Unreadable)
      else Ok(contents)
    }

    /** Overwrite the file (creating it and its directory if needed) with `bookmarks`. */
    method WriteBookmarks(bookmarks: seq<Bookmark>)
      modifies this
      ensures fileExists && fileReadable && contents == bookmarks
      ensures ReadBookmarks() == Ok(bookmarks)
    {
      fileExists, fileReadable, contents := true, true, bookmarks;
    }

    /** The path stored under `name`. */
    function GetBookmark(name: string): (r: Result<string>)
      reads this
      ensures ReadBookmarks().Err? ==> r == Err(Unreadable)
      ensures ReadBookmarks().Ok? ==> r == Lookup(ReadBookmarks().value, name)
      ensures !fileExists ==> r == Err(NotFound(name))
    {
      match ReadBookmarks()
      case Err(e) => Err(e)
      case Ok(bookmarks) => Lookup(bookmarks, name)
    }

    /** What adding `name` for `path` would write, or the error it reports. */
    function AddOutcome(fs: Fs, name: string, path: string): (r: Result<seq<Bookmark>>)
      requires fs.Exists(path)
      reads this
      ensures ReadBookmarks().Err? ==> r == Err(Unreadable)
      ensures ReadBookmarks().Ok? ==> r == Insert(ReadBookmarks().value, Bookmark(name, fs.Canonicalize(path)))
      ensures !fileExists ==> r == Ok([Bookmark(name, fs.Canonicalize(path))])
    {
      match ReadBookmarks()
      case Err(e) => Err(e)
      case Ok(bookmarks) => Insert(bookmarks, Bookmark(name, fs.Canonicalize(path)))
    }

    /** What removing `name` would write, or the error it reports. */
    function RemoveOutcome(name: string): (r: Result<seq<Bookmark>>)
      reads this
      ensures ReadBookmarks().Err? ==> r == Err(Unreadable)
      ensures ReadBookmarks().Ok? ==> r == Remove(ReadBookmarks().value, name)
      ensures !fileExists ==> r == Err(NotFound(name))
    {
      match ReadBookmarks()
      case Err(e) => Err(e)
      case Ok(bookmarks) => Remove(bookmarks, name)
    }

    /** Register `name` for the canonical form of `path`, unless the name is taken. */
    method AddBookmark(fs: Fs, name: string, path: string) returns (r: Result<()>)
      requires fs.Exists(path)
      modifies this
      ensures r == old(AddOutcome(fs, name, path)).Discard()
      ensures r.Err? ==> unchanged(this)
      ensures r.Ok? ==> fileExists && fileReadable && contents == old(AddOutcome(fs, name, path)).value
      ensures r.Ok? ==> GetBookmark(name) == Ok(fs.Canonicalize(path))
      ensures r.Ok? && old(ReadBookmarks()).Ok? && Unique(old(ReadBookmarks()).value) ==> Unique(contents)
    {
      var bookmark := Bookmark(name, fs.Canonicalize(path));
      var read := ReadBookmarks();
      if read.Err? {
        return Err(read.error);
      }
      var bookmarks := read.value;
      match Position(bookmarks, bookmark.name) {
        case Some(i) =>
          r := Err(AlreadyRegistered(bookmarks[i].name, bookmarks[i].path));
        case None =>
          LookupAfterInsert(bookmarks, bookmark, name);
          if Unique(bookmarks) {
            InsertKeepsUnique(bookmarks, bookmark);
          }
          bookmarks := bookmarks + [bookmark];
          WriteBookmarks(bookmarks);
          r := Ok(());
      }
    }

    /** Delete the first entry called `name`, keeping the others in order. */
    method RemoveBookmark(name: string) returns (r: Result<()>)
      modifies this
      ensures r == old(RemoveOutcome(name)).Discard()
      ensures r.Err? ==> unchanged(this)
      ensures r.Ok? ==> fileExists && fileReadable && contents == old(RemoveOutcome(name)).value
      ensures r.Ok? && Unique(old(contents)) ==> Unique(contents) && GetBookmark(name) == Err(NotFound(name))
    {
      var read := ReadBookmarks();
      if read.Err? {
        return Err(read.error);
      }
      var bookmarks := read.value;
      match Position(bookmarks, name) {
        case Some(index) =>
          if Unique(bookmarks) {
            RemoveKeepsUnique(bookmarks, name);
            LookupAfterRemove(bookmarks, name, name);
          }
          bookmarks := bookmarks[..index] + bookmarks[index + 1..];
          WriteBookmarks(bookmarks);
          r := Ok(());
        case None =>
          r := Err(NotFound(name));
      }
    }
  }
}

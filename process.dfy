/** The command layer: checks directory paths, delegates to the manager and
    produces what each command shows. Each command works on the manager whose
    store it uses and on a snapshot of the filesystem; printed output is returned. */
module Process {
  import opened FileSystem
  import opened Bookmarks

  /** A path that exists and is a directory. The existence test adds nothing to
      `is_dir`, which is false for a missing path, but it is what lets the manager
      canonicalize the path. */
  predicate IsValidPath(fs: Fs, path: string)
    ensures IsValidPath(fs, path) ==> fs.Exists(path)
    ensures IsValidPath(fs, path) <==> fs.IsDir(path)
  {
    fs.Exists(path) && fs.IsDir(path)
  }

  /** A valid directory path can be canonicalized (so the manager's unwrap cannot
      fail), and on a coherent filesystem its canonical form is again a valid
      directory path. */
  lemma ValidPathCanonical(fs: Fs, path: string)
    requires IsValidPath(fs, path)
    ensures fs.Exists(path)
    ensures fs.Coherent() ==> IsValidPath(fs, fs.Canonicalize(path))
  {
  }

  /** The path to change into for `name`: the stored path, when it is still a directory. */
  function ChangeDirectory(m: Manager, fs: Fs, name: string): (r: Result<string>)
    reads m
    ensures m.GetBookmark(name).Err? ==> r == m.GetBookmark(name)
    ensures m.GetBookmark(name).Ok? ==>
              var stored := m.GetBookmark(name).value;
              (r.Ok? <==> IsValidPath(fs, stored)) &&
              (r.Ok? ==> r.value == stored) &&
              (r.Err? ==> r.error == InvalidPath(name, stored))
  {
    match m.GetBookmark(name)
    case Err(e) => Err(e)
    case Ok(path) =>
      if IsValidPath(fs, path) then Ok(path) else Err(InvalidPath(name, path))
  }

  /** Register `name` for `path` after checking that `path` is a directory. */
  method AddBookmark(m: Manager, fs: Fs, name: string, path: string) returns (r: Result<()>)
    modifies m
    ensures !IsValidPath(fs, path) ==> r == Err(InvalidPath(name, path)) && unchanged(m)
    ensures IsValidPath(fs, path) ==> r == old(m.AddOutcome(fs, name, path)).Discard()
    ensures IsValidPath(fs, path) && r.Ok? ==>
              m.fileExists && m.fileReadable && m.contents == old(m.AddOutcome(fs, name, path)).value
    ensures r.Err? ==> unchanged(m)
    ensures r.Ok? && fs.Coherent() ==> ChangeDirectory(m, fs, name) == Ok(fs.Canonicalize(path))
  {
    if IsValidPath(fs, path) {
      ValidPathCanonical(fs, path);
      r := m.AddBookmark(fs, name, path);
    } else {
      r := Err(InvalidPath(name, path));
    }
  }

  /** Delete `name` from the store. */
  method RemoveBookmark(m: Manager, name: string) returns (r: Result<()>)
    modifies m
    ensures r == old(m.RemoveOutcome(name)).Discard()
    ensures r.Err? ==> unchanged(m)
    ensures r.Ok? ==> m.fileExists && m.fileReadable && m.contents == old(m.RemoveOutcome(name)).value
  {
    r := m.RemoveBookmark(name);
  }

  // Listing

  /** How many bytes `c` takes in UTF-8. */
  function Utf8Width(c: char): (n: nat)
    ensures 1 <= n <= 4
    ensures n == 1 <==> (c as int) < 0x80
  {
    if (c as int) < 0x80 then 1
    else if (c as int) < 0x800 then 2
    else if (c as int) < 0x10000 then 3
    else 4
  }

  ghost predicate IsAscii(s: string) {
    forall k :: 0 <= k < |s| ==> (s[k] as int) < 0x80
  }

  /** The length in bytes of `s` encoded as UTF-8, which is what `str::len` gives:
      never less than the number of characters, and equal to it exactly for ASCII. */
  function Utf8Length(s: string): (n: nat)
    ensures |s| <= n <= 4 * |s|
    ensures n == |s| <==> IsAscii(s)
  {
    if s == [] then 0
    else
      assert IsAscii(s) <==> (s[0] as int) < 0x80 && IsAscii(s[1..]) by {
        if (s[0] as int) < 0x80 && IsAscii(s[1..]) {
          forall k | 1 <= k < |s| ensures (s[k] as int) < 0x80 {
            assert s[k] == s[1..][k - 1];
          }
        }
      }
      Utf8Width(s[0]) + Utf8Length(s[1..])
  }

  /** The width of the name column: the largest name length in bytes, or nothing
      for an empty list. */
  function NameWidth(bs: seq<Bookmark>): (r: Option<nat>)
    ensures r.None? <==> bs == []
    ensures r.Some? ==> forall i :: 0 <= i < |bs| ==> Utf8Length(bs[i].name) <= r.value
    ensures r.Some? ==> exists i :: 0 <= i < |bs| && Utf8Length(bs[i].name) == r.value
  {
    if bs == [] then None
    else
      var first := Utf8Length(bs[0].name);
      match NameWidth(bs[1..])
      case None => Some(first)
      case Some(rest) =>
        assert exists i :: 1 <= i < |bs| && Utf8Length(bs[i].name) == rest by {
          var i :| 0 <= i < |bs| - 1 && Utf8Length(bs[1..][i].name) == rest;
          assert bs[1..][i] == bs[i + 1];
        }
        Some(if first < rest then rest else first)
  }

  function Spaces(n: nat): (s: string)
    ensures |s| == n && forall k :: 0 <= k < n ==> s[k] == ' '
  {
    seq(n, _ => ' ')
  }

  /** `s` left-aligned in a field of `width` characters, filled with spaces; a
      longer `s` is kept whole. */
  function Pad(s: string, width: nat): (r: string)
    ensures |r| == if |s| < width then width else |s|
    ensures r[..|s|] == s
    ensures forall k :: |s| <= k < |r| ==> r[k] == ' '
  {
    if |s| < width then s + Spaces(width - |s|) else s
  }

  /** One line of the listing: the padded name, one space, the path. */
  function Line(b: Bookmark, width: nat): (r: string)
    ensures |b.name| <= width ==> ShowsAt(r, b, width)
    ensures width < |b.name| ==> r == b.name + " " + b.path
  {
    Pad(b.name, width) + " " + b.path
  }

  /** `line` shows `b` in a name column `width` characters wide: the name from the
      first character, spaces up to the column's end, one space, then the path. */
  ghost predicate ShowsAt(line: string, b: Bookmark, width: nat) {
    |b.name| <= width &&
    |line| == width + 1 + |b.path| &&
    line[..|b.name|] == b.name &&
    (forall k :: |b.name| <= k < width ==> line[k] == ' ') &&
    line[width] == ' ' &&
    line[width + 1..] == b.path
  }

  /** The lines of a listing show every bookmark, in stored order, in a name column
      as wide as the widest name in bytes. */
  ghost predicate Listing(bs: seq<Bookmark>, lines: seq<string>) {
    |lines| == |bs| &&
    (bs != [] ==> forall i :: 0 <= i < |bs| ==> ShowsAt(lines[i], bs[i], NameWidth(bs).value))
  }

  /** For ASCII names the name column is exactly as wide as the longest name. */
  lemma AsciiNameWidth(bs: seq<Bookmark>)
    requires bs != [] && forall i :: 0 <= i < |bs| ==> IsAscii(bs[i].name)
    ensures forall i :: 0 <= i < |bs| ==> |bs[i].name| <= NameWidth(bs).value
    ensures exists i :: 0 <= i < |bs| && |bs[i].name| == NameWidth(bs).value
  {
    var i :| 0 <= i < |bs| && Utf8Length(bs[i].name) == NameWidth(bs).value;
    assert |bs[i].name| == NameWidth(bs).value;
  }

  /** Lines made by `Line` at the width of the widest name form a listing. */
  lemma LinesListing(bs: seq<Bookmark>, lines: seq<string>)
    requires bs != [] && |lines| == |bs|
    requires forall k :: 0 <= k < |bs| ==> lines[k] == Line(bs[k], NameWidth(bs).value)
    ensures Listing(bs, lines)
  {
    var width := NameWidth(bs).value;
    forall k | 0 <= k < |bs| ensures ShowsAt(lines[k], bs[k], width) {
      assert |bs[k].name| <= Utf8Length(bs[k].name) <= width;
    }
  }

  /** The lines `list` prints: nothing for an empty store, otherwise one line per
      bookmark in stored order. */
  method ShowList(m: Manager) returns (r: Result<seq<string>>)
    ensures m.ReadBookmarks().Err? ==> r == Err(Unreadable)
    ensures m.ReadBookmarks().Ok? ==> r.Ok? && Listing(m.ReadBookmarks().value, r.value)
    ensures m.ReadBookmarks() == Ok([]) ==> r == Ok([])
  {
    var read := m.ReadBookmarks();
    if read.Err? {
      return Err(read.error);
    }
    var bookmarks := read.value;
    var lines: seq<string> := [];
    var widest := NameWidth(bookmarks);
    if widest.Some? {
      var width := widest.value;
      for i := 0 to |bookmarks|
        invariant |lines| == i
        invariant forall k :: 0 <= k < i ==> lines[k] == Line(bookmarks[k], width)
      {
        lines := lines + [Line(bookmarks[i], width)];
      }
      LinesListing(bookmarks, lines);
    }
    r := Ok(lines);
  }
}

# bm-bookmark in Dafny

A model of the directory-bookmark manager `bm-bookmark`. A user gives short names to
directories, resolves a name back to its directory (for a shell wrapper to `cd`
into), lists the bookmarks and removes them. The bookmarks are an ordered list of
`(name, path)` records kept in one JSON file. Every change reads the whole list,
changes it in memory and rewrites the whole file.

The model has three modules:

- `FileSystem` (`filesystem.dfy`) models the filesystem queries the program makes
  (`Path::exists`, `Path::is_dir`, `Path::canonicalize`). They become queries on a
  snapshot value `Fs`, which maps each existing path to its kind and its canonical
  form. `Fs.Coherent()` states what a real filesystem guarantees: a canonical form
  exists and has the same kind as the path it came from.
- `Bookmarks` (`bookmark.dfy`, from `src/bookmark.rs`) holds the `Bookmark` record
  (`Bookmark::new` is its datatype constructor). It also holds the error kinds, the
  list operations (first match, lookup, insert, remove) and the class `Manager`.
  A `Manager` holds the state of its store file: `fileExists`, `fileReadable` (the
  file opens and decodes) and `contents`. `ReadBookmarks` reads that state.
  `WriteBookmarks` assigns it. `AddBookmark` and `RemoveBookmark` change it in place
  through `WriteBookmarks`, as the source's methods do. The file's location is a
  constructor parameter.
- `Process` (`process.dfy`, from `src/process.rs`) is the command layer. It holds
  the directory-validity check `IsValidPath` (exists and is a directory), path
  resolution for `cd`, the checked add, remove, and the listing. Printed output is
  returned as a value: the path for `cd`, and a sequence of lines for `list`.

The listing's name column is as wide as the longest name measured in UTF-8 bytes
(`str::len`). Each name is then padded with spaces to that many characters, as
Rust's `{:<width$}` does. The model keeps this mismatch: `Utf8Length` counts bytes
and `Pad` counts characters. Every name field is exactly `width` characters long,
because a name never has more characters than bytes. These are characters, not
terminal columns: a wide (CJK) or combining character can take a different number of
columns on screen. When names contain non-ASCII characters the column can be wider
than the longest name. For ASCII names it is exactly as wide (`AsciiNameWidth`).

Notes on the code's behaviour:

- Uniqueness of names is enforced by the manager's add alone
  (`src/bookmark.rs:34-40`). The command layer has no duplicate check of its own.
- The command layer checks the raw path with `IsValidPath` before the manager
  canonicalizes it (`src/process.rs:37`, `src/bookmark.rs:31`).
- A lookup of a missing name is an error (`NotFound`), not an empty option.

## Model

| member | source | states |
|---|---|---|
| `Bookmarks.Result.Discard` | src/bookmark.rs:43-44 | dropping the success value keeps the outcome: an error stays the same error and a success stays a success, as `?; Ok(())` does here and at src/process.rs:39-40 and 48-49 |
| `Bookmarks.Message` | src/bookmark.rs:24-56 | the text of each error (`is not found.`, `is already registered. (n = p)`, and `(p) is invalid directory path` from src/process.rs:20 and 42) begins with the bookmark name |
| `Bookmarks.Position` | src/bookmark.rs:50 | `None` exactly when no entry has the name; otherwise the index of an entry with that name, with no earlier entry having it (the first match of `position`/`find`) |
| `Bookmarks.Lookup` | src/bookmark.rs:21-26 | fails with `NotFound(name)` exactly when no entry has the name; otherwise returns the path of the first entry with that name |
| `Bookmarks.Insert` | src/bookmark.rs:34-42 | succeeds exactly when the name is absent, and then keeps every old entry in place and in order and appends exactly the new one; otherwise reports `AlreadyRegistered` with the name and path of the first entry with that name |
| `Bookmarks.Remove` | src/bookmark.rs:49-56 | fails with `NotFound(name)` exactly when no entry has the name; otherwise drops the first entry with the name and keeps the entries before it and after it in their order |
| `Bookmarks.PositionAppend` | src/bookmark.rs:42 | appending an entry keeps the first match of every name already present, and makes the new entry the first match of its name when the name was absent |
| `Bookmarks.LookupAfterInsert` | src/bookmark.rs:29-46 | after an insert the new name finds the new path, and every other name finds what it found before |
| `Bookmarks.RemoveAfterInsert` | src/bookmark.rs:42-53 | inserting a fresh name and then removing it gives back exactly the previous list, in the same order |
| `Bookmarks.InsertKeepsUnique` | src/bookmark.rs:34-44 | an insert keeps the names of the list pairwise distinct |
| `Bookmarks.RemoveKeepsUnique` | src/bookmark.rs:49-53 | a remove keeps the names of the list pairwise distinct |
| `Bookmarks.RemovedAt` | src/bookmark.rs:51 | after `remove(i)` the entries before `i` keep their index and the entries after it move down by one |
| `Bookmarks.LookupAfterRemove` | src/bookmark.rs:48-56 | with distinct names, after a remove the removed name is `NotFound` and every other name finds what it found before |
| `Bookmarks.LookupAfterRemoveOther` | src/bookmark.rs:50-51 | removing an entry leaves the lookup of every other name unchanged, even when names repeat |
| `Bookmarks.InsertAllAppends` | src/bookmark.rs:29-46 | a run of inserts with distinct, fresh names accepts all of them and leaves the old entries followed by the new ones in insertion order |
| `Bookmarks.StillFresh` | src/bookmark.rs:34 | after the first insert of such a run, the remaining names are still distinct and absent from the list |
| `Bookmarks.InsertAllFinds` | src/bookmark.rs:21-46 | after such a run every inserted name finds exactly the path it was inserted with |
| `Bookmarks.LookupAfterAppend` | src/bookmark.rs:22 | in a list extended by fresh entries, a name whose first occurrence is among them finds that entry's path |
| `Bookmarks.Manager.constructor` | src/bookmark.rs:16-19 | the manager uses the store at the given location, in the given state |
| `Bookmarks.Manager.ReadBookmarks` | src/bookmark.rs:59-68 | a missing file reads as the empty list, not as an error; an existing file reads as its contents when it can be read, and as `Unreadable` otherwise |
| `Bookmarks.Manager.WriteBookmarks` | src/bookmark.rs:70-80 | after a write the file exists and reading it returns exactly the written list, in order |
| `Bookmarks.Manager.GetBookmark` | src/bookmark.rs:21-27 | a read failure is returned as it is; otherwise the result is the first-match lookup in the stored list; a missing file gives `NotFound(name)` |
| `Bookmarks.Manager.AddOutcome` | src/bookmark.rs:29-46 | the list an add writes, or its error: a read failure first, then the duplicate check on `(name, canonical path)`; adding to a missing file gives a one-entry list |
| `Bookmarks.Manager.RemoveOutcome` | src/bookmark.rs:48-57 | the list a remove writes, or its error: a read failure first, then `NotFound`; removing from a missing file gives `NotFound(name)` |
| `Bookmarks.Manager.AddBookmark` | src/bookmark.rs:29-46 | the result is `AddOutcome`'s; an error leaves the store untouched; on success the file holds the old list plus `(name, canonical path)`, the name then resolves to the canonical path, and distinct names stay distinct |
| `Bookmarks.Manager.RemoveBookmark` | src/bookmark.rs:48-57 | the result is `RemoveOutcome`'s; an error leaves the store untouched; on success the file holds the list without the first entry named `name`, and with distinct names the name is then `NotFound` |
| `Process.IsValidPath` | src/process.rs:8-10 | a valid path exists, and a path is valid exactly when it is a directory |
| `Process.ValidPathCanonical` | src/process.rs:8-10 | a valid directory path exists, so canonicalizing it cannot fail; on a coherent filesystem its canonical form is again a valid directory path |
| `Process.ChangeDirectory` | src/process.rs:12-22 | a lookup failure (not found, unreadable) is returned unchanged; otherwise the stored path is the output exactly when it is an existing directory, and otherwise the error is `InvalidPath(name, stored path)` |
| `Process.AddBookmark` | src/process.rs:35-44 | an invalid directory gives `InvalidPath(name, path)` and leaves the store untouched; a valid one gives exactly the manager's add result, so a duplicate is reported unchanged; after a success on a coherent filesystem, `cd name` outputs the canonical path |
| `Process.RemoveBookmark` | src/process.rs:46-50 | returns exactly the manager's remove result, with the same effect on the store |
| `Process.Utf8Width` | src/process.rs:27 | a character takes one to four UTF-8 bytes, and one exactly when it is ASCII |
| `Process.Utf8Length` | src/process.rs:27 | a name's byte length is at least its character count and at most four times it, and equals the character count exactly for ASCII names |
| `Process.NameWidth` | src/process.rs:27 | there is no width for an empty list; otherwise the width is the largest byte length among the names |
| `Process.Spaces` | src/process.rs:29 | the fill is the requested number of spaces |
| `Process.Pad` | src/process.rs:29 | `{:<width$}`: the name is kept whole at the start and filled with spaces up to `width` characters; a longer name is not cut |
| `Process.Line` | src/process.rs:29 | a listing line holds the name left-aligned, spaces up to the column width, one space, then the path; a name longer than the width is followed directly by one space and the path |
| `Process.LinesListing` | src/process.rs:27-30 | lines made by `Line` at the widest name's byte width show every bookmark in order, each name fitting its column, since no name has more characters than bytes |
| `Process.AsciiNameWidth` | src/process.rs:27 | for ASCII names the column is exactly as wide as the longest name |
| `Process.ShowList` | src/process.rs:24-33 | a read failure is returned; an empty store prints no lines; otherwise there is one line per bookmark, in stored order, each laid out as `Line` states in a column as wide as the widest name in UTF-8 bytes |

## Left out

- The JSON encoding of the store file (`serde_json`) is not modelled. The file's contents are the decoded list itself, and a file that does not decode is only the flag `fileReadable == false`.
- Bookmarks.Manager.WriteBookmarks: does not model failures of `create_dir_all`, `File::create` or serialization. Every write succeeds, because the state of a file left behind by a failed write is not visible in the source. The panic of `file_path.parent().unwrap()` for a store location without a parent directory (`/` or the empty string) is not modelled either: the constructor accepts any location.
- `Error.Unreadable` stands for both the open failure (`File::open`, `src/bookmark.rs:61`) and the decode failure (`serde_json::from_reader`, `src/bookmark.rs:63`). In the code these are two different errors, each with its own message.
- Bookmarks.Message: the text of an `Unreadable` error is a fixed placeholder. The real text comes from `std::io` or `serde_json` and is not visible in the source.
- Bookmarks.Manager.AddBookmark: `canonicalize().unwrap()` panics on a path that does not exist, so the model requires the path to exist. `to_str().unwrap()` cannot fail on the model's strings. Callers that do not meet the requirement are not modelled. `Process.AddBookmark` always meets it.
- `Manager::new`, which builds the store location from `HOME`, is replaced by the constructor's location parameter. The command layer receives the manager instead of making one per call.
- The filesystem is a snapshot value passed to each command. Symbolic links, relative paths and the current directory are folded into each path's entry, through its kind and canonical form.
- `src/main.rs` (argument parsing and printing errors) is not part of this model. It has no logic beyond dispatching to the commands.
- The test helper `TestDataManager` and its file clean-up are not part of this model.
- Two processes changing the unlocked file at the same time can race. The model has no concurrency, and neither does the code within one run.

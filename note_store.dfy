/** The notes directory, abstracted: each file name maps to the file's text
    and its last-modification time. The operations are the ones the browser
    performs on the directory; their failures are decided by the callers. */
module NoteStore {
  import opened Wrappers

  datatype FileEntry = FileEntry(content: string, mtime: int)

  type Store = map<string, FileEntry>

  /** `os.path.getmtime`. Every note the browser lists is in the store, so
      the fallback value is never used for one of them. */
  function Mtime(store: Store, name: string): int
  {
    if name in store then store[name].mtime else 0
  }

  /** The text of a file, as reading it whole gives it. */
  function ContentOf(store: Store, name: string): string
  {
    if name in store then store[name].content else ""
  }

  /** `open(name, "w").write(text)` at time `now`: creates or overwrites the
      file and stamps it with the current time. */
  function Write(store: Store, name: string, text: string, now: int): (r: Store)
    ensures r.Keys == store.Keys + {name}
    ensures r[name].content == text && Mtime(r, name) == now
    ensures forall other :: other in store && other != name ==> r[other] == store[other]
  {
    store[name := FileEntry(text, now)]
  }

  /** save_now's `open(name, "w")` and `write` at time `now`: either both
      succeed, or one raises and the file is left as `failure` says. When
      `open` raises the file is as it was; when `write` raises, `open` has
      already emptied the file and stamped it, and the text may be partly
      written. Either way no other file changes and no file appears or
      disappears but `name`. */
  function SaveAttempt(store: Store, name: string, text: string, now: int, failure: Option<FileEntry>): (r: Store)
    ensures r.Keys == store.Keys + {name}
    ensures failure.None? ==> r[name].content == text && Mtime(r, name) == now
    ensures failure.Some? ==> r[name] == failure.value
    ensures forall other :: other in store && other != name ==> r[other] == store[other]
  {
    if failure.None? then Write(store, name, text, now) else store[name := failure.value]
  }

  /** `os.rename(from, to)`: the file keeps its text and its modification time
      under the new name. */
  function Rename(store: Store, from: string, to: string): (r: Store)
    requires from in store
    ensures r.Keys == store.Keys - {from} + {to}
    ensures r[to] == store[from] && Mtime(r, to) == Mtime(store, from)
    ensures forall other :: other in store && other != from && other != to ==> r[other] == store[other]
  {
    (store - {from})[to := store[from]]
  }
}

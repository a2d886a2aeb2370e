/**
 * `LoadPublicationChecksum`: the fingerprint stored by an earlier build, read
 * from `<checksumsStore>/<checksumFilename>`. The current value source trims the
 * text; the older one in the `data` package returns it as it is.
 */
module LoadChecksum {
  import opened Wrappers
  import opened Binary
  import opened Text
  import opened Disk
  import Utf8

  /** `store.resolve(name)` for a name that holds no path separator; the empty name is the store itself. */
  function Resolve(store: Path, name: string): (p: Path)
    ensures name != "" ==> p == store + [name] && StrictlyUnder(p, store)
    ensures name == "" ==> p == store
  {
    if name == "" then store else
      JoinedIsUnder(store, [name]);
      store + [name]
  }

  /**
   * `takeIf(File::exists)?.readText()`: nothing for a path that does not exist,
   * the UTF-8 text of a regular file, and a failure for a directory, which exists
   * but cannot be read.
   */
  function ReadExisting(e: map<Path, Node>, p: Path): (r: Result<Option<string>, Path>)
    ensures r == Success(None) <==> StatOf(e, p).Missing?
    ensures r.Failure? <==> StatOf(e, p).Directory?
    ensures StatOf(e, p).Regular? ==> r == Success(Some(Utf8.Decode(StatOf(e, p).data)))
  {
    match StatOf(e, p)
    case Missing => Success(None)
    case Regular(data) => Success(Some(Utf8.Decode(data)))
    case Directory => Failure(p)
  }

  /** The older `obtain()`: the stored text untrimmed. */
  function LegacyLoad(checksumFilename: Option<string>, store: Path, e: map<Path, Node>): (r: Result<Option<string>, Path>)
    ensures checksumFilename.None? ==> r == Success(None)
    ensures checksumFilename.Some? ==> r == ReadExisting(e, Resolve(store, checksumFilename.value))
  {
    match checksumFilename
    case None => Success(None)
    case Some(name) => ReadExisting(e, Resolve(store, name))
  }

  /** `obtain()`: the stored text, trimmed; nothing when the name is unset or the file missing. */
  function Load(checksumFilename: Option<string>, store: Path, e: map<Path, Node>): (r: Result<Option<string>, Path>)
    ensures checksumFilename.None? ==> r == Success(None)
    ensures r.Success? && r.value.Some? ==> IsTrimmed(r.value.value)
  {
    match LegacyLoad(checksumFilename, store, e)
    case Success(Some(text)) => Success(Some(Trim(text)))
    case other => other
  }

  /** The current load is the older one with the text trimmed, and fails or finds nothing exactly when the older one does. */
  lemma LoadTrimsLegacy(checksumFilename: Option<string>, store: Path, e: map<Path, Node>)
    ensures var l, r := LegacyLoad(checksumFilename, store, e), Load(checksumFilename, store, e);
      (r.Failure? <==> l.Failure?)
      && (r == Success(None) <==> l == Success(None))
      && (l.Success? && l.value.Some? ==> r == Success(Some(Trim(l.value.value))))
  {
  }

  /** A stored file that does not exist gives nothing, for either load. */
  lemma LoadMissing(name: string, store: Path, e: map<Path, Node>)
    requires StatOf(e, Resolve(store, name)).Missing?
    ensures Load(Some(name), store, e) == Success(None)
    ensures LegacyLoad(Some(name), store, e) == Success(None)
  {
  }

  /** Only the one named file is read: file systems that agree on it give the same result. */
  lemma LoadReadsOnlyNamedFile(name: string, store: Path, e1: map<Path, Node>, e2: map<Path, Node>)
    requires StatOf(e1, Resolve(store, name)) == StatOf(e2, Resolve(store, name))
    ensures Load(Some(name), store, e1) == Load(Some(name), store, e2)
    ensures LegacyLoad(Some(name), store, e1) == LegacyLoad(Some(name), store, e2)
  {
  }

  /** Writing a trimmed text with `writeText` and loading it back gives the text. */
  lemma {:induction false} LoadAfterWrite(name: string, store: Path, e: map<Path, Node>, text: string)
    requires Resolve(store, name) != []
    requires IsTrimmed(text)
    ensures Load(Some(name), store, e[Resolve(store, name) := File(Utf8.Encode(text))]) == Success(Some(text))
    ensures LegacyLoad(Some(name), store, e[Resolve(store, name) := File(Utf8.Encode(text))]) == Success(Some(text))
  {
    Utf8.DecodeEncode(text);
    TrimmedIsFixpoint(text);
  }

  /** A file holding the encoded `text` loads back as `text`, and trimmed by the current load. */
  lemma LoadStored(name: string, store: Path, e: map<Path, Node>, text: string)
    requires StatOf(e, Resolve(store, name)) == Regular(Utf8.Encode(text))
    ensures LegacyLoad(Some(name), store, e) == Success(Some(text))
    ensures Load(Some(name), store, e) == Success(Some(Trim(text)))
  {
    Utf8.DecodeEncode(text);
  }
}

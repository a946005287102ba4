// The access-manifest decoder as the source runs it: fields found by re-scanning, entries
// pushed one by one into a fixed-capacity manifest, then a nested duplicate scan.
module ManifestLoops {
  import opened Wrappers
  import opened Bytes
  import opened Canonical
  import opened CanonicalFrames
  import opened Types
  import opened Transaction

  /** What the decoder returns after pushing `done`, when the entries still to come decode to `r`. */
  function Pushed(done: seq<AccessEntry>, r: Result<seq<AccessEntry>, TransactionError>)
    : Result<seq<AccessEntry>, TransactionError>
  {
    match r
    case Err(e) => Err(e)
    case Ok(rest) => Ok(done + rest)
  }

  /** Finds the first entry whose object id occurs again, comparing every pair in order. */
  method FindDuplicate(manifest: AccessManifest) returns (r: Option<ObjectId>)
    requires manifest.Valid()
    ensures r == FirstDuplicate(manifest.Contents())
  {
    ghost var all := manifest.Contents();
    for i := 0 to manifest.len
      invariant FirstDuplicate(all) == FirstDuplicate(all[i..])
    {
      var left := manifest.entries[i].value;
      for j := i + 1 to manifest.len
        invariant forall k :: i < k < j ==> all[k].objectRef.id != left.objectRef.id
      {
        var right := manifest.entries[j].value;
        if left.objectRef.id == right.objectRef.id {
          assert all[i..][1..][j - i - 1] == right;
          return Some(left.objectRef.id);
        }
      }
      assert all[i..][1..] == all[i + 1..];
    }
    return None;
  }

  method ScanAccessManifest(input: seq<byte>) returns (r: Result<seq<AccessEntry>, TransactionError>)
    ensures r == DecodeAccessManifest(input)
  {
    hide RequireOnly, Lookup, DecodeAccessEntry, FirstDuplicate, DecodeFrame, LeValue;
    var view := DecodeCanonicalFrame(input);
    if view.Err? { return Err(CanonicalFailure(view.error)); }
    var frame := view.value;
    ghost var content := frame.Content();
    if frame.typeId != ACCESS_MANIFEST_TYPE_ID {
      return Err(CanonicalFailure(UnexpectedTypeId(ACCESS_MANIFEST_TYPE_ID, frame.typeId)));
    }
    if frame.version != 1 {
      return Err(CanonicalFailure(UnexpectedVersion(1, frame.version)));
    }
    var countBytes := frame.FindField(1);
    if countBytes.None? { return Err(CanonicalFailure(MissingField(1))); }
    if |countBytes.value| != 4 {
      return Err(CanonicalFailure(InvalidFieldLength(1, 4, |countBytes.value|)));
    }
    var declared := LeValue(countBytes.value);
    if declared > MAX_ACCESS_ENTRIES || frame.fieldCount != declared + 1 {
      return Err(AccessManifestShape);
    }
    var manifest := new AccessManifest();
    var failure := PushEntries(frame, declared, manifest);
    if failure.Err? { return Err(failure.error); }
    var duplicate := FindDuplicate(manifest);
    if duplicate.Some? { return Err(DuplicateObjectId(duplicate.value)); }
    return Ok(manifest.Contents());
  }

  method PushEntries(frame: CanonicalFrame, declared: nat, manifest: AccessManifest)
    returns (r: Result<(), TransactionError>)
    requires frame.Valid() && declared <= MAX_ACCESS_ENTRIES
    requires manifest.Valid() && manifest.Contents() == []
    modifies manifest, manifest.entries
    ensures manifest.Valid()
    ensures match DecodeEntries(frame.Content(), declared, 0)
            case Err(e) => r == Err(e)
            case Ok(entries) => r == Ok(()) && manifest.Contents() == entries
  {
    hide DecodeEntries, Lookup, DecodeAccessEntry, DecodeFrame, Pushed;
    ghost var content := frame.Content();
    ghost var whole := DecodeEntries(content, declared, 0);
    PushedStart(content, declared);
    for index := 0 to declared
      invariant manifest.Valid() && manifest.len == index
      invariant whole == Pushed(manifest.Contents(), DecodeEntries(content, declared, index))
    {
      PushedNext(content, declared, index, manifest.Contents());
      var bytes := frame.FindField(index + 2);
      if bytes.None? { return Err(CanonicalFailure(MissingField(index + 2))); }
      var entry := DecodeAccessEntry(bytes.value);
      if entry.Err? { return Err(entry.error); }
      var pushed := manifest.Push(entry.value);
      assert pushed.Ok?;
    }
    PushedAll(content, declared, manifest.Contents());
    return Ok(());
  }

  lemma {:induction false} PushedStart(content: Frame, declared: nat)
    requires declared <= MAX_ACCESS_ENTRIES
    ensures DecodeEntries(content, declared, 0) == Pushed([], DecodeEntries(content, declared, 0))
  {
    hide DecodeEntries;
    var r := DecodeEntries(content, declared, 0);
    assert r.Ok? ==> [] + r.value == r.value;
  }

  /** One turn of the loop: a failed read or decode ends it, anything else is pushed. */
  lemma {:induction false} PushedNext(content: Frame, declared: nat, index: nat, done: seq<AccessEntry>)
    requires index < declared <= MAX_ACCESS_ENTRIES
    ensures match Lookup(content.fields, index + 2)
            case None => Pushed(done, DecodeEntries(content, declared, index))
                         == Err(CanonicalFailure(MissingField(index + 2)))
            case Some(bytes) =>
              match DecodeAccessEntry(bytes)
              case Err(e) => Pushed(done, DecodeEntries(content, declared, index)) == Err(e)
              case Ok(entry) => Pushed(done, DecodeEntries(content, declared, index))
                                == Pushed(done + [entry], DecodeEntries(content, declared, index + 1))
  {
    hide Lookup, DecodeAccessEntry;
    var next := DecodeEntries(content, declared, index + 1);
    if Lookup(content.fields, index + 2).Some? && next.Ok? {
      var entry := DecodeAccessEntry(Lookup(content.fields, index + 2).value);
      assert entry.Ok? ==> done + ([entry.value] + next.value) == done + [entry.value] + next.value;
    }
  }

  lemma {:induction false} PushedAll(content: Frame, declared: nat, done: seq<AccessEntry>)
    requires declared <= MAX_ACCESS_ENTRIES
    ensures Pushed(done, DecodeEntries(content, declared, declared)) == Ok(done)
  {
    assert done + [] == done;
  }
}

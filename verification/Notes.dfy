/** Anonymous notes: commitments, keys and viewing hints (src/privacy/mod.rs). */
module Notes {
  import opened Bytes
  import opened ByteOrder
  import opened Wrappers
  import opened NoteMerkle

  // ASCII of "prims-note-owner" and "prims-viewing-key".
  const OWNER_TAG: Bytes := [112, 114, 105, 109, 115, 45, 110, 111, 116, 101, 45, 111, 119, 110, 101, 114]
  const VIEWING_TAG: Bytes := [112, 114, 105, 109, 115, 45, 118, 105, 101, 119, 105, 110, 103, 45, 107, 101, 121]

  lemma OwnerTagSpelled()
    ensures Spells(OWNER_TAG, "prims-note-owner")
  {
    hide Spells;
    var a, b := OWNER_TAG[..8], OWNER_TAG[8..];
    OwnerTagStart();
    OwnerTagEnd();
    SpellsBoth(a, "prims-no", b, "te-owner");
    assert a + b == OWNER_TAG && "prims-no" + "te-owner" == "prims-note-owner";
  }

  lemma OwnerTagStart()
    ensures Spells(OWNER_TAG[..8], "prims-no")
  {
  }

  lemma OwnerTagEnd()
    ensures Spells(OWNER_TAG[8..], "te-owner")
  {
  }

  lemma ViewingTagSpelled()
    ensures Spells(VIEWING_TAG, "prims-viewing-key")
  {
    hide Spells;
    var a, b := VIEWING_TAG[..8], VIEWING_TAG[8..];
    ViewingTagStart();
    ViewingTagEnd();
    SpellsBoth(a, "prims-vi", b, "ewing-key");
    assert a + b == VIEWING_TAG && "prims-vi" + "ewing-key" == "prims-viewing-key";
  }

  lemma ViewingTagStart()
    ensures Spells(VIEWING_TAG[..8], "prims-vi")
  {
  }

  lemma ViewingTagEnd()
    ensures Spells(VIEWING_TAG[8..], "ewing-key")
  {
  }

  type Key = Digest

  const ZERO_KEY: Key := ZEROS_32

  /** What a commitment commits to. */
  datatype Opening = Opening(value: U64, recipient: Key, blinding: Digest)

  function OpeningPayload(o: Opening): (r: Bytes)
    ensures |r| == 72
  {
    LittleEndian(o.value, 8) + o.recipient + o.blinding
  }

  lemma OpeningPayloadInjective(o: Opening, p: Opening)
    requires OpeningPayload(o) == OpeningPayload(p)
    ensures o == p
  {
    hide LittleEndian;
    var x, y := OpeningPayload(o), OpeningPayload(p);
    assert LittleEndian(o.value, 8) == x[..8] && LittleEndian(p.value, 8) == y[..8];
    assert o.recipient == x[8..40] && p.recipient == y[8..40];
    assert o.blinding == x[40..] && p.blinding == y[40..];
    LittleEndianInjective(o.value, p.value);
  }

  function Commit(sha: Hash, o: Opening): NoteCommitment {
    sha(OpeningPayload(o))
  }

  ghost function OpeningPayloads(openings: set<Opening>): set<Bytes> {
    set o | o in openings :: OpeningPayload(o)
  }

  /** Commitments bind: among openings whose payloads do not collide, one commitment has one opening. */
  lemma CommitmentsBind(sha: Hash, openings: set<Opening>, o: Opening, p: Opening)
    requires CollisionFree(sha, OpeningPayloads(openings)) && o in openings && p in openings
    ensures Commit(sha, o) == Commit(sha, p) <==> o == p
  {
    hide OpeningPayload;
    assert OpeningPayload(o) in OpeningPayloads(openings) && OpeningPayload(p) in OpeningPayloads(openings);
    if Commit(sha, o) == Commit(sha, p) {
      OpeningPayloadInjective(o, p);
    }
  }

  function DerivePublicKey(sha: Hash, spendingKey: Key): Key {
    sha(OWNER_TAG + spendingKey)
  }

  /** While the tagged keys do not collide, a public key has one private key, and a hint one viewing key. */
  lemma KeysBind(sha: Hash, k: Key, l: Key)
    requires CollisionFree(sha, {OWNER_TAG + k, OWNER_TAG + l})
    ensures DerivePublicKey(sha, k) == DerivePublicKey(sha, l) <==> k == l
  {
    assert k == (OWNER_TAG + k)[|OWNER_TAG|..] && l == (OWNER_TAG + l)[|OWNER_TAG|..];
  }

  lemma HintsBind(sha: Hash, k: Key, l: Key)
    requires k != ZERO_KEY && l != ZERO_KEY && CollisionFree(sha, {VIEWING_TAG + k, VIEWING_TAG + l})
    ensures ViewingHint(sha, k).Some? && (ViewingHint(sha, k) == ViewingHint(sha, l) <==> k == l)
  {
    assert k == (VIEWING_TAG + k)[|VIEWING_TAG|..] && l == (VIEWING_TAG + l)[|VIEWING_TAG|..];
  }

  datatype NoteError = ZeroValue | InvalidRecipientPublicKey | InvalidBlinding | InvalidViewingKey

  predicate WellFormed(o: Opening) {
    o.value != 0 && o.recipient != ZERO_KEY && o.blinding != ZERO_KEY
  }

  /** `Note::new`; a note is its commitment. */
  function NewNote(sha: Hash, o: Opening): (r: Result<NoteCommitment, NoteError>)
    ensures r.Success? <==> WellFormed(o)
    ensures r.Success? ==> r.value == Commit(sha, o)
  {
    if o.value == 0 then Failure(ZeroValue)
    else if o.recipient == ZERO_KEY then Failure(InvalidRecipientPublicKey)
    else if o.blinding == ZERO_KEY then Failure(InvalidBlinding)
    else Success(Commit(sha, o))
  }

  function ViewingHint(sha: Hash, viewingKey: Key): Option<Digest> {
    if viewingKey == ZERO_KEY then None else Some(sha(VIEWING_TAG + viewingKey))
  }

  datatype ViewableNote = ViewableNote(commitment: NoteCommitment, viewingHint: Digest, shardId: nat)

  function NewViewableNote(sha: Hash, o: Opening, viewingKey: Key, shardId: nat): Result<ViewableNote, NoteError> {
    var note := NewNote(sha, o);
    if note.Failure? then Failure(note.error)
    else
      var hint := ViewingHint(sha, viewingKey);
      if hint.None? then Failure(InvalidViewingKey)
      else Success(ViewableNote(note.value, hint.value, shardId))
  }
}

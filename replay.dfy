/**
 * The integrity binding of an Evidence Pack.  The pack's digest is the
 * SHA-256 of its canonical JSON bytes, computed after the self-referential
 * block `execution.integrity` (and any top-level `integrity` key) has been
 * removed.  `AttachIntegrityBinding` stores that digest under
 * `execution.integrity.pack_sha256`; `VerifyIntegrityBinding` recomputes it
 * and compares, reporting the first check that fails.
 *
 * SHA-256 itself is not modelled: it is a parameter `sha`, any function from
 * bytes to 64 lower-case hex digits.  The clock read by the producer is a
 * parameter too.  A pack is the member list of a JSON object; copying it
 * (the source round-trips it through `json.dumps`/`json.loads`) is value
 * semantics here, so the caller's pack is never changed.
 */
module Replay {

  import opened Wrappers
  import opened JsonValue
  import opened CanonicalJson
  import opened CanonicalOrder
  import opened CanonicalInjective
  import Utf8
  import PyText

  // ---------------------------------------------------------------------
  // Errors, digests and results.
  // ---------------------------------------------------------------------

  /** `ReplayError`, a `ValueError` carrying its message. */
  datatype ReplayError = ReplayError(message: string)

  datatype Result<T> = Ok(value: T) | Err(error: ReplayError)

  const PackNotAnObject: string := "Evidence Pack must be an object."
  const ExecutionNotAnObject: string := "execution must be an object"
  const IntegrityNotAnObject: string := "execution.integrity must be an object"

  /** A character `hexdigest()` may produce. */
  predicate IsLowerHex(c: char) {
    '0' <= c <= '9' || 'a' <= c <= 'f'
  }

  /** What `hexdigest()` of a SHA-256 returns: 64 lower-case hex digits. */
  predicate IsHexDigest(h: string) {
    |h| == 64 && forall i :: 0 <= i < |h| ==> IsLowerHex(h[i])
  }

  function ZeroHash(data: seq<Utf8.byte>): string {
    seq(64, _ => '0')
  }

  /** A hash function in the shape of SHA-256's hex digest; the actual function is left abstract. */
  type Sha256 = f: seq<Utf8.byte> -> string | forall data :: IsHexDigest(f(data))
    witness ZeroHash

  /** `sha256_hex`. */
  function Sha256Hex(sha: Sha256, data: seq<Utf8.byte>): (h: string)
    ensures |h| == 64
    ensures forall i :: 0 <= i < |h| ==> IsLowerHex(h[i])
  {
    sha(data)
  }

  /** `IntegrityResult`, with its four fields. */
  datatype IntegrityResult = IntegrityResult(ok: bool, expected: string, computed: string, reason: string)

  const ReasonMissingExecution: string := "missing execution block"
  const ReasonMissingIntegrity: string := "missing execution.integrity block"
  const ReasonInvalidPackSha: string := "missing/invalid integrity.pack_sha256"
  const ReasonHashMismatch: string := "hash mismatch"
  const ReasonOk: string := "ok"

  // ---------------------------------------------------------------------
  // Where the binding lives.
  // ---------------------------------------------------------------------

  /** The members of `execution` when it is an object. */
  function ExecutionBlock(pack: seq<Member>): Option<seq<Member>> {
    var x := Get(pack, "execution");
    if x.Some? && x.value.Obj? then Some(x.value.members) else None
  }

  /** The members of `execution.integrity` when both are objects. */
  function IntegrityBlock(pack: seq<Member>): Option<seq<Member>> {
    if ExecutionBlock(pack).None? then None
    else
      var x := Get(ExecutionBlock(pack).value, "integrity");
      if x.Some? && x.value.Obj? then Some(x.value.members) else None
  }

  /** The stored digest, when `execution.integrity.pack_sha256` is a string. */
  function StoredDigest(pack: seq<Member>): Option<string> {
    if IntegrityBlock(pack).None? then None
    else
      var x := Get(IntegrityBlock(pack).value, "pack_sha256");
      if x.Some? && x.value.Str? then Some(x.value.s) else None
  }

  // ---------------------------------------------------------------------
  // canonicalize_for_binding
  // ---------------------------------------------------------------------

  /** The pack with `execution.integrity` dropped, when `execution` is an object. */
  function StripExecution(pack: seq<Member>): seq<Member> {
    if ExecutionBlock(pack).None? then pack
    else Set(pack, "execution", Obj(Remove(ExecutionBlock(pack).value, "integrity")))
  }

  /**
   * The pack that is hashed: `execution.integrity` is dropped when
   * `execution` is an object, and so is a top-level `integrity`.
   */
  function BindingForm(pack: seq<Member>): seq<Member> {
    Remove(StripExecution(pack), "integrity")
  }

  /** The binding form has the pack's keys except a top-level `integrity`. */
  lemma BindingFormKeys(pack: seq<Member>)
    ensures Keys(BindingForm(pack)) == Keys(pack) - {"integrity"}
    ensures DistinctKeys(pack) ==> DistinctKeys(BindingForm(pack))
  {
    if DistinctKeys(pack) {
      if ExecutionBlock(pack).Some? {
        SetKeepsDistinct(pack, "execution", Obj(Remove(ExecutionBlock(pack).value, "integrity")));
      }
      RemoveKeepsDistinct(StripExecution(pack), "integrity");
    }
  }

  /** Every top-level key other than `integrity` and `execution` keeps its value. */
  lemma BindingFormKeepsOthers(pack: seq<Member>, k: string)
    requires k != "integrity" && k != "execution"
    ensures Get(BindingForm(pack), k) == Get(pack, k)
  {
    GetRemove(StripExecution(pack), "integrity", k);
    if ExecutionBlock(pack).Some? {
      GetSet(pack, "execution", Obj(Remove(ExecutionBlock(pack).value, "integrity")), k);
    }
  }

  /** An `execution` that is not an object is kept as it is. */
  lemma BindingFormKeepsNonObjectExecution(pack: seq<Member>)
    requires ExecutionBlock(pack).None?
    ensures Get(BindingForm(pack), "execution") == Get(pack, "execution")
  {
    GetRemove(StripExecution(pack), "integrity", "execution");
  }

  /** An `execution` object loses its `integrity` key and keeps every other key and value. */
  lemma BindingFormStripsExecution(pack: seq<Member>)
    requires ExecutionBlock(pack).Some?
    ensures ExecutionBlock(BindingForm(pack)) == Some(Remove(ExecutionBlock(pack).value, "integrity"))
    ensures Keys(ExecutionBlock(BindingForm(pack)).value) == Keys(ExecutionBlock(pack).value) - {"integrity"}
    ensures forall k :: k != "integrity" ==>
              Get(ExecutionBlock(BindingForm(pack)).value, k) == Get(ExecutionBlock(pack).value, k)
  {
    var e := ExecutionBlock(pack).value;
    GetRemove(StripExecution(pack), "integrity", "execution");
    GetSet(pack, "execution", Obj(Remove(e, "integrity")), "execution");
    forall k | k != "integrity" ensures Get(Remove(e, "integrity"), k) == Get(e, k) {
      GetRemove(e, "integrity", k);
    }
  }

  /** The value `canonicalize_for_binding` returns: the canonical bytes and the pack they encode. */
  datatype Canonical = Canonical(bytes: seq<Utf8.byte>, pack: seq<Member>)

  /** `canonicalize_for_binding`: strip the binding from a copy of the pack and encode the rest. */
  method CanonicalizeForBinding(evidencePack: Json) returns (r: Result<Canonical>)
    ensures r.Err? <==> !evidencePack.Obj?
    ensures r.Err? ==> r.error == ReplayError(PackNotAnObject)
    ensures r.Ok? ==> r.value.pack == BindingForm(evidencePack.members)
    ensures r.Ok? ==> r.value.bytes == CanonicalJsonBytes(Obj(r.value.pack))
  {
    if !evidencePack.Obj? {
      return Err(ReplayError(PackNotAnObject));
    }
    var pack := evidencePack.members;
    var execBlock := Get(pack, "execution");
    if execBlock.Some? && execBlock.value.Obj? {
      pack := Set(pack, "execution", Obj(Remove(execBlock.value.members, "integrity")));
    }
    pack := Remove(pack, "integrity");
    var b := CanonicalJsonBytes(Obj(pack));
    return Ok(Canonical(b, pack));
  }

  // ---------------------------------------------------------------------
  // compute_integrity_binding
  // ---------------------------------------------------------------------

  /** `compute_integrity_binding`: the hash of the canonical bytes of the binding form. */
  function ComputeIntegrityBinding(sha: Sha256, evidencePack: Json): (r: Result<string>)
    ensures r.Err? <==> !evidencePack.Obj?
    ensures r.Err? ==> r.error == ReplayError(PackNotAnObject)
    ensures r.Ok? ==> IsHexDigest(r.value)
    ensures r.Ok? ==> r.value == sha(CanonicalJsonBytes(Obj(BindingForm(evidencePack.members))))
  {
    if !evidencePack.Obj? then Err(ReplayError(PackNotAnObject))
    else Ok(Sha256Hex(sha, CanonicalJsonBytes(Obj(BindingForm(evidencePack.members)))))
  }

  /** The digest of a pack given as its members. */
  function Digest(sha: Sha256, pack: seq<Member>): (h: string)
    ensures IsHexDigest(h)
  {
    ComputeIntegrityBinding(sha, Obj(pack)).value
  }

  // ---------------------------------------------------------------------
  // verify_integrity_binding
  // ---------------------------------------------------------------------

  /** The stored digest passes the shape check: a string of 64 characters. */
  predicate ValidStored(x: Option<Json>) {
    x.Some? && x.value.Str? && |x.value.s| == 64
  }

  /**
   * `verify_integrity_binding`: the first failing check decides the
   * reason; only when the stored digest has the right shape is the pack's
   * digest computed and compared with it.
   */
  function VerifyIntegrityBinding(sha: Sha256, evidencePack: seq<Member>): (r: IntegrityResult)
    ensures ExecutionBlock(evidencePack).None? ==>
              r == IntegrityResult(false, "", "", ReasonMissingExecution)
    ensures ExecutionBlock(evidencePack).Some? && IntegrityBlock(evidencePack).None? ==>
              r == IntegrityResult(false, "", "", ReasonMissingIntegrity)
    ensures IntegrityBlock(evidencePack).Some? && !ValidStored(Get(IntegrityBlock(evidencePack).value, "pack_sha256")) ==>
              r == IntegrityResult(false, PyText.Str(Get(IntegrityBlock(evidencePack).value, "pack_sha256")), "", ReasonInvalidPackSha)
    ensures IntegrityBlock(evidencePack).Some? && ValidStored(Get(IntegrityBlock(evidencePack).value, "pack_sha256")) ==>
              r.expected == StoredDigest(evidencePack).value && r.computed == Digest(sha, evidencePack) &&
              (r.ok <==> r.expected == r.computed) &&
              r.reason == (if r.ok then ReasonOk else ReasonHashMismatch)
  {
    var execBlock := Get(evidencePack, "execution");
    if !(execBlock.Some? && execBlock.value.Obj?) then
      IntegrityResult(false, "", "", ReasonMissingExecution)
    else
      var integrity := Get(execBlock.value.members, "integrity");
      if !(integrity.Some? && integrity.value.Obj?) then
        IntegrityResult(false, "", "", ReasonMissingIntegrity)
      else
        var expected := Get(integrity.value.members, "pack_sha256");
        if !(expected.Some? && expected.value.Str? && |expected.value.s| == 64) then
          IntegrityResult(false, PyText.Str(expected), "", ReasonInvalidPackSha)
        else
          var computed := ComputeIntegrityBinding(sha, Obj(evidencePack)).value;
          if computed != expected.value.s then
            IntegrityResult(false, expected.value.s, computed, ReasonHashMismatch)
          else
            IntegrityResult(true, expected.value.s, computed, ReasonOk)
  }

  /** The verifier accepts exactly when the stored digest is the pack's digest. */
  lemma VerifyOkIff(sha: Sha256, evidencePack: seq<Member>)
    ensures VerifyIntegrityBinding(sha, evidencePack).ok <==> StoredDigest(evidencePack) == Some(Digest(sha, evidencePack))
    ensures VerifyIntegrityBinding(sha, evidencePack).ok <==> VerifyIntegrityBinding(sha, evidencePack).reason == ReasonOk
  {
    var r := VerifyIntegrityBinding(sha, evidencePack);
    if IntegrityBlock(evidencePack).Some? {
      var x := Get(IntegrityBlock(evidencePack).value, "pack_sha256");
      if ValidStored(x) {
        assert StoredDigest(evidencePack) == Some(x.value.s);
      } else if x.Some? && x.value.Str? {
      }
    }
  }

  // ---------------------------------------------------------------------
  // attach_integrity_binding
  // ---------------------------------------------------------------------

  /** `computed_at or <now>`: an empty or absent timestamp falls back to the clock. */
  function Stamp(computedAt: Option<string>, now: string): (t: string)
    ensures computedAt.Some? && computedAt.value != [] ==> t == computedAt.value
    ensures computedAt.None? || computedAt.value == [] ==> t == now
  {
    if computedAt.Some? && computedAt.value != [] then computedAt.value else now
  }

  /** The producer refuses a pack whose `execution`, or whose `execution.integrity`, exists but is not an object. */
  predicate AttachFails(pack: seq<Member>) {
    var e := Get(pack, "execution");
    e.Some? && (!e.value.Obj? || (Get(e.value.members, "integrity").Some? && !Get(e.value.members, "integrity").value.Obj?))
  }

  /** The `execution` members the producer starts from: the existing object or `{}`. */
  function ExecutionOrEmpty(pack: seq<Member>): seq<Member> {
    if ExecutionBlock(pack).Some? then ExecutionBlock(pack).value else []
  }

  /** The `execution.integrity` members the producer starts from: the existing object or `{}`. */
  function IntegrityOrEmpty(pack: seq<Member>): seq<Member> {
    var x := Get(ExecutionOrEmpty(pack), "integrity");
    if x.Some? && x.value.Obj? then x.value.members else []
  }

  /** The pack with `execution.integrity` set to the object `b`, `execution` being created if absent. */
  function WithIntegrity(pack: seq<Member>, b: seq<Member>): seq<Member> {
    Set(pack, "execution", Obj(Set(ExecutionOrEmpty(pack), "integrity", Obj(b))))
  }

  /** The pack once `execution` and `execution.integrity` exist: the one whose digest is stored. */
  function Defaulted(pack: seq<Member>): seq<Member> {
    WithIntegrity(pack, IntegrityOrEmpty(pack))
  }

  /** The integrity block the producer writes: the old one with `pack_sha256` and `computed_at` set. */
  function Bound(sha: Sha256, pack: seq<Member>, computedAt: Option<string>, now: string): seq<Member> {
    Set(Set(IntegrityOrEmpty(pack), "pack_sha256", Str(Digest(sha, Defaulted(pack)))), "computed_at", Str(Stamp(computedAt, now)))
  }

  /**
   * What `attach_integrity_binding` returns: the pack with `execution` and
   * `execution.integrity` created where absent and the digest and
   * timestamp written into `execution.integrity`, or the error for an
   * `execution` or `execution.integrity` that is not an object.
   */
  function Attached(sha: Sha256, evidencePack: seq<Member>, computedAt: Option<string>, now: string): (r: Result<seq<Member>>)
    ensures r.Err? <==> AttachFails(evidencePack)
    ensures r.Err? && ExecutionBlock(evidencePack).None? ==> r.error.message == ExecutionNotAnObject
    ensures r.Err? && ExecutionBlock(evidencePack).Some? ==> r.error.message == IntegrityNotAnObject
    ensures r.Ok? ==> r.value == WithIntegrity(evidencePack, Bound(sha, evidencePack, computedAt, now))
  {
    if ExecutionBlock(evidencePack).None? && "execution" in Keys(evidencePack) then
      Err(ReplayError(ExecutionNotAnObject))
    else if IntegrityBlock(evidencePack).None? && "integrity" in Keys(ExecutionOrEmpty(evidencePack)) then
      Err(ReplayError(IntegrityNotAnObject))
    else
      Ok(WithIntegrity(evidencePack, Bound(sha, evidencePack, computedAt, now)))
  }

  /** Setting the integrity block keeps every top-level key other than `execution`, and `execution` is there afterwards. */
  lemma WithIntegrityKeepsTopLevel(pack: seq<Member>, b: seq<Member>, k: string)
    ensures Keys(WithIntegrity(pack, b)) == Keys(pack) + {"execution"}
    ensures k != "execution" ==> Get(WithIntegrity(pack, b), k) == Get(pack, k)
    ensures DistinctKeys(pack) ==> DistinctKeys(WithIntegrity(pack, b))
  {
    GetSet(pack, "execution", Obj(Set(ExecutionOrEmpty(pack), "integrity", Obj(b))), k);
    if DistinctKeys(pack) {
      SetKeepsDistinct(pack, "execution", Obj(Set(ExecutionOrEmpty(pack), "integrity", Obj(b))));
    }
  }

  /** The new `execution` is an object whose `integrity` is `b` and whose other keys are as before. */
  lemma WithIntegrityExecution(pack: seq<Member>, b: seq<Member>, k: string)
    ensures ExecutionBlock(WithIntegrity(pack, b)) == Some(Set(ExecutionOrEmpty(pack), "integrity", Obj(b)))
    ensures IntegrityBlock(WithIntegrity(pack, b)) == Some(b)
    ensures k != "integrity" ==> Get(ExecutionBlock(WithIntegrity(pack, b)).value, k) == Get(ExecutionOrEmpty(pack), k)
  {
    var e := ExecutionOrEmpty(pack);
    GetSet(pack, "execution", Obj(Set(e, "integrity", Obj(b))), "execution");
    GetSet(e, "integrity", Obj(b), "integrity");
    GetSet(e, "integrity", Obj(b), k);
  }

  /** Whatever integrity block is set, the binding form is the same. */
  lemma WithIntegrityBindingForm(pack: seq<Member>, b: seq<Member>, c: seq<Member>)
    ensures BindingForm(WithIntegrity(pack, b)) == BindingForm(WithIntegrity(pack, c))
  {
    var e := ExecutionOrEmpty(pack);
    WithIntegrityExecution(pack, b, "integrity");
    WithIntegrityExecution(pack, c, "integrity");
    RemoveSet(e, "integrity", Obj(b));
    RemoveSet(e, "integrity", Obj(c));
    SetSet(pack, "execution", Obj(Set(e, "integrity", Obj(b))), Obj(Remove(e, "integrity")));
    SetSet(pack, "execution", Obj(Set(e, "integrity", Obj(c))), Obj(Remove(e, "integrity")));
  }

  /** The bound block holds the digest and the timestamp, and the old block's other keys unchanged. */
  lemma BoundContents(sha: Sha256, evidencePack: seq<Member>, computedAt: Option<string>, now: string, k: string)
    ensures var b := Bound(sha, evidencePack, computedAt, now);
      Get(b, "pack_sha256") == Some(Str(Digest(sha, Defaulted(evidencePack)))) &&
      Get(b, "computed_at") == Some(Str(Stamp(computedAt, now))) &&
      (k != "pack_sha256" && k != "computed_at" ==> Get(b, k) == Get(IntegrityOrEmpty(evidencePack), k))
  {
    var i := IntegrityOrEmpty(evidencePack);
    var p := Set(i, "pack_sha256", Str(Digest(sha, Defaulted(evidencePack))));
    GetSet(p, "computed_at", Str(Stamp(computedAt, now)), "pack_sha256");
    GetSet(i, "pack_sha256", Str(Digest(sha, Defaulted(evidencePack))), "pack_sha256");
    GetSet(p, "computed_at", Str(Stamp(computedAt, now)), "computed_at");
    GetSet(p, "computed_at", Str(Stamp(computedAt, now)), k);
    GetSet(i, "pack_sha256", Str(Digest(sha, Defaulted(evidencePack))), k);
  }

  /**
   * `attach_integrity_binding` keeps every key other than the two it
   * writes: top-level keys other than `execution`, keys of `execution`
   * other than `integrity`, and keys of `execution.integrity` other than
   * `pack_sha256` and `computed_at`.
   */
  lemma AttachKeepsOtherKeys(sha: Sha256, evidencePack: seq<Member>, computedAt: Option<string>, now: string, k: string)
    requires Attached(sha, evidencePack, computedAt, now).Ok?
    ensures var r := Attached(sha, evidencePack, computedAt, now).value;
      Keys(r) == Keys(evidencePack) + {"execution"} &&
      (k != "execution" ==> Get(r, k) == Get(evidencePack, k)) &&
      ExecutionBlock(r).Some? &&
      (k != "integrity" ==> Get(ExecutionBlock(r).value, k) == Get(ExecutionOrEmpty(evidencePack), k)) &&
      IntegrityBlock(r).Some? &&
      (k != "pack_sha256" && k != "computed_at" ==> Get(IntegrityBlock(r).value, k) == Get(IntegrityOrEmpty(evidencePack), k)) &&
      (DistinctKeys(evidencePack) ==> DistinctKeys(r))
  {
    var b := Bound(sha, evidencePack, computedAt, now);
    WithIntegrityKeepsTopLevel(evidencePack, b, k);
    WithIntegrityExecution(evidencePack, b, k);
    BoundContents(sha, evidencePack, computedAt, now, k);
  }

  /** The producer writes the digest of the very pack it returns, and the timestamp chosen by `computed_at or <now>`. */
  lemma AttachWritesDigest(sha: Sha256, evidencePack: seq<Member>, computedAt: Option<string>, now: string)
    requires Attached(sha, evidencePack, computedAt, now).Ok?
    ensures var r := Attached(sha, evidencePack, computedAt, now).value;
      IntegrityBlock(r).Some? &&
      Get(IntegrityBlock(r).value, "pack_sha256") == Some(Str(Digest(sha, r))) &&
      Get(IntegrityBlock(r).value, "computed_at") == Some(Str(Stamp(computedAt, now)))
  {
    var b := Bound(sha, evidencePack, computedAt, now);
    WithIntegrityExecution(evidencePack, b, "integrity");
    BoundContents(sha, evidencePack, computedAt, now, "integrity");
    WithIntegrityBindingForm(evidencePack, b, IntegrityOrEmpty(evidencePack));
  }

  // ---------------------------------------------------------------------
  // The digest does not see the binding.
  // ---------------------------------------------------------------------

  /** Replacing (or adding) `execution.integrity` leaves the binding form unchanged. */
  lemma BindingIgnoresIntegrityValue(pack: seq<Member>, x: Json)
    requires ExecutionBlock(pack).Some?
    ensures BindingForm(Set(pack, "execution", Obj(Set(ExecutionBlock(pack).value, "integrity", x)))) == BindingForm(pack)
  {
    var e := ExecutionBlock(pack).value;
    var changed := Set(pack, "execution", Obj(Set(e, "integrity", x)));
    GetSet(pack, "execution", Obj(Set(e, "integrity", x)), "execution");
    RemoveSet(e, "integrity", x);
    SetSet(pack, "execution", Obj(Set(e, "integrity", x)), Obj(Remove(e, "integrity")));
  }

  /** Removing `execution.integrity` leaves the binding form unchanged. */
  lemma BindingIgnoresIntegrityRemoval(pack: seq<Member>)
    requires ExecutionBlock(pack).Some?
    ensures BindingForm(Set(pack, "execution", Obj(Remove(ExecutionBlock(pack).value, "integrity")))) == BindingForm(pack)
  {
    var e := ExecutionBlock(pack).value;
    var e' := Remove(e, "integrity");
    GetSet(pack, "execution", Obj(e'), "execution");
    SetSet(pack, "execution", Obj(e'), Obj(e'));
  }

  /** Adding, replacing or dropping a top-level `integrity` key leaves the binding form unchanged. */
  lemma BindingIgnoresTopLevelIntegrity(pack: seq<Member>, x: Json)
    ensures BindingForm(Set(pack, "integrity", x)) == BindingForm(pack)
    ensures BindingForm(Remove(pack, "integrity")) == BindingForm(pack)
  {
    var p := Set(pack, "integrity", x);
    GetSet(pack, "integrity", x, "execution");
    assert ExecutionBlock(p) == ExecutionBlock(pack);
    RemoveSet(pack, "integrity", x);
    var q := Remove(pack, "integrity");
    GetRemove(pack, "integrity", "execution");
    assert ExecutionBlock(q) == ExecutionBlock(pack);
    assert Remove(q, "integrity") == q;
    if ExecutionBlock(pack).Some? {
      var a := Obj(Remove(ExecutionBlock(pack).value, "integrity"));
      RemoveSetOther(p, "execution", a, "integrity");
      RemoveSetOther(pack, "execution", a, "integrity");
      RemoveSetOther(q, "execution", a, "integrity");
    }
  }

  /**
   * The digest is independent of everything inside `execution.integrity`
   * and of whether that block is there at all.
   */
  lemma DigestIgnoresIntegrity(sha: Sha256, pack: seq<Member>, x: Json)
    requires ExecutionBlock(pack).Some?
    ensures Digest(sha, Set(pack, "execution", Obj(Set(ExecutionBlock(pack).value, "integrity", x)))) == Digest(sha, pack)
    ensures Digest(sha, Set(pack, "execution", Obj(Remove(ExecutionBlock(pack).value, "integrity")))) == Digest(sha, pack)
  {
    BindingIgnoresIntegrityValue(pack, x);
    BindingIgnoresIntegrityRemoval(pack);
  }

  /** Nor does it depend on a top-level `integrity`, whether `execution` is an object or not. */
  lemma DigestIgnoresTopLevelIntegrity(sha: Sha256, pack: seq<Member>, x: Json)
    ensures Digest(sha, Set(pack, "integrity", x)) == Digest(sha, pack)
    ensures Digest(sha, Remove(pack, "integrity")) == Digest(sha, pack)
  {
    BindingIgnoresTopLevelIntegrity(pack, x);
  }

  // ---------------------------------------------------------------------
  // The producer and the verifier agree.
  // ---------------------------------------------------------------------

  /** A pack just bound by the producer passes the verifier, whatever the hash function and timestamp. */
  lemma AttachThenVerify(sha: Sha256, evidencePack: seq<Member>, computedAt: Option<string>, now: string)
    requires Attached(sha, evidencePack, computedAt, now).Ok?
    ensures var p := Attached(sha, evidencePack, computedAt, now).value;
      VerifyIntegrityBinding(sha, p) == IntegrityResult(true, Digest(sha, p), Digest(sha, p), ReasonOk)
  {
    AttachWritesDigest(sha, evidencePack, computedAt, now);
  }

  /** Changing a key of `execution.integrity` other than `pack_sha256`, such as `computed_at`, leaves the verdict as it was. */
  lemma VerifyIgnoresIntegrityExtras(sha: Sha256, pack: seq<Member>, k: string, x: Json)
    requires IntegrityBlock(pack).Some? && k != "pack_sha256"
    ensures var b' := Set(IntegrityBlock(pack).value, k, x);
      VerifyIntegrityBinding(sha, Set(pack, "execution", Obj(Set(ExecutionBlock(pack).value, "integrity", Obj(b'))))) ==
      VerifyIntegrityBinding(sha, pack)
  {
    var e, b := ExecutionBlock(pack).value, IntegrityBlock(pack).value;
    var e' := Set(e, "integrity", Obj(Set(b, k, x)));
    var q := Set(pack, "execution", Obj(e'));
    GetSet(pack, "execution", Obj(e'), "execution");
    assert ExecutionBlock(q) == Some(e');
    GetSet(e, "integrity", Obj(Set(b, k, x)), "integrity");
    assert IntegrityBlock(q) == Some(Set(b, k, x));
    GetSet(b, k, x, "pack_sha256");
    DigestIgnoresIntegrity(sha, pack, Obj(Set(b, k, x)));
    VerifySeesOnly(sha, q, pack);
  }

  /** The verdict depends only on which blocks are objects, the stored `pack_sha256` value and the digest. */
  lemma VerifySeesOnly(sha: Sha256, p: seq<Member>, q: seq<Member>)
    requires ExecutionBlock(p).None? == ExecutionBlock(q).None?
    requires IntegrityBlock(p).None? == IntegrityBlock(q).None?
    requires IntegrityBlock(p).Some? ==> Get(IntegrityBlock(p).value, "pack_sha256") == Get(IntegrityBlock(q).value, "pack_sha256")
    requires Digest(sha, p) == Digest(sha, q)
    ensures VerifyIntegrityBinding(sha, p) == VerifyIntegrityBinding(sha, q)
  {
    var rp, rq := VerifyIntegrityBinding(sha, p), VerifyIntegrityBinding(sha, q);
    if ExecutionBlock(p).None? {
    } else if IntegrityBlock(p).None? {
    } else {
      var x := Get(IntegrityBlock(p).value, "pack_sha256");
      if !ValidStored(x) {
      } else {
        VerifyOkIff(sha, p);
        VerifyOkIff(sha, q);
        assert StoredDigest(p) == StoredDigest(q);
      }
    }
  }

  /** The binding form of a proper dict is a proper dict. */
  lemma BindingFormWellFormed(pack: seq<Member>)
    requires WellFormed(Obj(pack))
    ensures WellFormed(Obj(BindingForm(pack)))
  {
    if ExecutionBlock(pack).Some? {
      var e := ExecutionBlock(pack).value;
      RemoveKeepsWellFormed(e, "integrity");
      SetKeepsWellFormed(pack, "execution", Obj(Remove(e, "integrity")));
    }
    RemoveKeepsWellFormed(StripExecution(pack), "integrity");
  }

  /**
   * The bytes hashed for two packs agree exactly when their binding forms
   * hold the same content: the digest covers every change of content
   * outside the integrity blocks, and nothing else.
   */
  lemma BindingBytesIff(p: seq<Member>, q: seq<Member>)
    requires WellFormed(Obj(p)) && WellFormed(Obj(q))
    ensures CanonicalJsonBytes(Obj(BindingForm(p))) == CanonicalJsonBytes(Obj(BindingForm(q))) <==>
            SameContent(Obj(BindingForm(p)), Obj(BindingForm(q)))
  {
    BindingFormWellFormed(p);
    BindingFormWellFormed(q);
    CanonicalBytesSameContentIff(Obj(BindingForm(p)), Obj(BindingForm(q)));
  }

  /**
   * Two packs that both verify against one stored digest, but whose
   * binding forms differ in content, exhibit a collision of the hash: a
   * binding can be carried over to other content only by breaking the hash.
   */
  lemma ForgeryNeedsCollision(sha: Sha256, p: seq<Member>, q: seq<Member>)
    requires WellFormed(Obj(p)) && WellFormed(Obj(q))
    requires VerifyIntegrityBinding(sha, p).ok && VerifyIntegrityBinding(sha, q).ok
    requires StoredDigest(p) == StoredDigest(q)
    requires !SameContent(Obj(BindingForm(p)), Obj(BindingForm(q)))
    ensures var bp, bq := CanonicalJsonBytes(Obj(BindingForm(p))), CanonicalJsonBytes(Obj(BindingForm(q)));
      bp != bq && sha(bp) == sha(bq)
  {
    VerifyOkIff(sha, p);
    VerifyOkIff(sha, q);
    BindingBytesIff(p, q);
  }

  /** Binding a freshly bound pack again, with the same timestamp, returns it unchanged. */
  lemma AttachIdempotent(sha: Sha256, evidencePack: seq<Member>, computedAt: Option<string>, now: string)
    requires Attached(sha, evidencePack, computedAt, now).Ok?
    ensures var p := Attached(sha, evidencePack, computedAt, now).value;
      Attached(sha, p, computedAt, now) == Ok(p)
  {
    var b := Bound(sha, evidencePack, computedAt, now);
    var p := WithIntegrity(evidencePack, b);
    var e := Set(ExecutionOrEmpty(evidencePack), "integrity", Obj(b));
    WithIntegrityExecution(evidencePack, b, "integrity");
    assert !AttachFails(p);
    DefaultedBound(evidencePack, b);
    WithIntegrityBindingForm(evidencePack, b, IntegrityOrEmpty(evidencePack));
    assert Digest(sha, Defaulted(p)) == Digest(sha, Defaulted(evidencePack));
    RebindKeepsBlock(sha, evidencePack, computedAt, now);
  }

  /** The pack bound to `b` already has both blocks, so defaulting them changes nothing. */
  lemma DefaultedBound(pack: seq<Member>, b: seq<Member>)
    ensures var p := WithIntegrity(pack, b);
      ExecutionOrEmpty(p) == Set(ExecutionOrEmpty(pack), "integrity", Obj(b)) &&
      IntegrityOrEmpty(p) == b && Defaulted(p) == p
  {
    var e := Set(ExecutionOrEmpty(pack), "integrity", Obj(b));
    var p := WithIntegrity(pack, b);
    WithIntegrityExecution(pack, b, "integrity");
    SetGet(e, "integrity");
    SetSet(pack, "execution", Obj(e), Obj(e));
  }

  /** Writing the same digest and timestamp into a bound block leaves it as it is. */
  lemma RebindKeepsBlock(sha: Sha256, pack: seq<Member>, computedAt: Option<string>, now: string)
    ensures var b := Bound(sha, pack, computedAt, now);
      Set(Set(b, "pack_sha256", Str(Digest(sha, Defaulted(pack)))), "computed_at", Str(Stamp(computedAt, now))) == b
  {
    var b := Bound(sha, pack, computedAt, now);
    BoundContents(sha, pack, computedAt, now, "");
    SetGet(b, "pack_sha256");
    SetGet(b, "computed_at");
  }

  /** `pack.setdefault("execution", {})`: `execution` reads as before, or as `{}` if it was absent. */
  lemma DefaultExecution(evidencePack: seq<Member>)
    ensures var x := Get(SetDefault(evidencePack, "execution", Obj([])), "execution");
      x.Some? &&
      (x.value.Obj? <==> !(ExecutionBlock(evidencePack).None? && "execution" in Keys(evidencePack))) &&
      (x.value.Obj? ==> x.value.members == ExecutionOrEmpty(evidencePack))
  {
    var g := Get(evidencePack, "execution");
    if "execution" in Keys(evidencePack) {
      assert g.Some?;
    } else {
      assert g.None?;
    }
  }

  /** `execution.setdefault("integrity", {})`, seen from the pack it came from. */
  lemma DefaultIntegrity(evidencePack: seq<Member>)
    ensures var x := Get(SetDefault(ExecutionOrEmpty(evidencePack), "integrity", Obj([])), "integrity");
      x.Some? &&
      (x.value.Obj? <==> !(IntegrityBlock(evidencePack).None? && "integrity" in Keys(ExecutionOrEmpty(evidencePack)))) &&
      (x.value.Obj? ==> x.value.members == IntegrityOrEmpty(evidencePack))
    ensures var x := Get(SetDefault(ExecutionOrEmpty(evidencePack), "integrity", Obj([])), "integrity");
      x.value.Obj? ==> SetDefault(ExecutionOrEmpty(evidencePack), "integrity", Obj([])) ==
                       Set(ExecutionOrEmpty(evidencePack), "integrity", Obj(IntegrityOrEmpty(evidencePack)))
  {
    var e := ExecutionOrEmpty(evidencePack);
    var g := Get(e, "integrity");
    SetDefaultAsSet(e, "integrity", Obj([]));
    if ExecutionBlock(evidencePack).None? {
      assert e == [];
    } else if "integrity" in Keys(e) {
      assert g.Some?;
    } else {
      assert g.None?;
    }
  }

  /** Overwriting the defaulted integrity block with `b` gives the pack bound to `b`. */
  lemma RewriteIntegrity(pack: seq<Member>, b: seq<Member>)
    ensures var e := Set(ExecutionOrEmpty(pack), "integrity", Obj(IntegrityOrEmpty(pack)));
      Set(Defaulted(pack), "execution", Obj(Set(e, "integrity", Obj(b)))) == WithIntegrity(pack, b)
  {
    var e := ExecutionOrEmpty(pack);
    SetSet(e, "integrity", Obj(IntegrityOrEmpty(pack)), Obj(b));
    SetSet(pack, "execution", Obj(Set(e, "integrity", Obj(IntegrityOrEmpty(pack)))), Obj(Set(e, "integrity", Obj(b))));
  }

  /** `attach_integrity_binding`: `setdefault` the two blocks, hash, then write into a working copy. */
  method AttachIntegrityBinding(sha: Sha256, evidencePack: seq<Member>, computedAt: Option<string>, now: string)
    returns (r: Result<seq<Member>>)
    ensures r == Attached(sha, evidencePack, computedAt, now)
  {
    var pack := evidencePack;
    pack := SetDefault(pack, "execution", Obj([]));
    assert Get(pack, "execution").Some? by { DefaultExecution(evidencePack); }
    var execution := Get(pack, "execution").value;
    if !execution.Obj? {
      assert Attached(sha, evidencePack, computedAt, now) == Err(ReplayError(ExecutionNotAnObject)) by {
        DefaultExecution(evidencePack);
      }
      return Err(ReplayError(ExecutionNotAnObject));
    }
    assert execution.members == ExecutionOrEmpty(evidencePack) by { DefaultExecution(evidencePack); }
    var execMembers := SetDefault(execution.members, "integrity", Obj([]));
    pack := Set(pack, "execution", Obj(execMembers));
    assert Get(execMembers, "integrity").Some? by { DefaultIntegrity(evidencePack); }
    var integrity := Get(execMembers, "integrity").value;
    if !integrity.Obj? {
      assert Attached(sha, evidencePack, computedAt, now) == Err(ReplayError(IntegrityNotAnObject)) by {
        DefaultExecution(evidencePack);
        DefaultIntegrity(evidencePack);
      }
      return Err(ReplayError(IntegrityNotAnObject));
    }
    assert integrity.members == IntegrityOrEmpty(evidencePack) &&
           execMembers == Set(ExecutionOrEmpty(evidencePack), "integrity", Obj(IntegrityOrEmpty(evidencePack))) by {
      DefaultIntegrity(evidencePack);
    }
    assert pack == Defaulted(evidencePack) by {
      SetDefaultThenSet(evidencePack, "execution", Obj([]), Obj(execMembers));
    }
    var digest := ComputeIntegrityBinding(sha, Obj(pack)).value;
    var bound := Set(integrity.members, "pack_sha256", Str(digest));
    bound := Set(bound, "computed_at", Str(Stamp(computedAt, now)));
    assert bound == Bound(sha, evidencePack, computedAt, now);
    execMembers := Set(execMembers, "integrity", Obj(bound));
    pack := Set(pack, "execution", Obj(execMembers));
    assert pack == WithIntegrity(evidencePack, bound) by { RewriteIntegrity(evidencePack, bound); }
    assert Attached(sha, evidencePack, computedAt, now) == Ok(pack) by {
      DefaultExecution(evidencePack);
      DefaultIntegrity(evidencePack);
    }
    return Ok(pack);
  }
}

/**
 * The web service's decisions: registering a user, stamping an image and verifying one.
 *
 * The two database tables are held in row order: `users` (username, public uid, stored key)
 * and `registry` (perceptual hash, owner uid). A query's `.first()` is the first row that
 * satisfies it. The perceptual hash of an upload is an input, the Hamming distance between
 * two hashes a function parameter, and the wavelet sub-band access the `hl`/`rebuild` pair of
 * the codec. The database's unique columns (username, user uid, image hash) make a commit that
 * would break them fail; the model reports that failure and leaves both tables as they were.
 */
module Service {
  import opened Wrappers
  import opened Utils
  import opened Core

  /** The strength both stamping and verification use. */
  const Alpha: real := 40.0

  /** Two hashes closer than this are the same picture. */
  const MatchThreshold: int := 10

  /** A row of the users table; `key` is the decrypted coefficient list, if one was stored. */
  datatype User = User(username: string, uid: string, key: Option<seq<real>>)

  /** A row of the image registry. */
  datatype Entry = Entry(imageHash: string, ownerUid: string)

  datatype RegisterResult = Registered(uid: string) | UserExists | UidTaken

  datatype StampResult = UserNotFound | Conflict(owner: string) | HashTaken | Stamped(image: Image)

  datatype VerifyResult = NoKey | ExtractFailed | Checked(text: string, isMatch: bool, owner: string)

  /** The watermark text of a user: "ID:" followed by the public uid. */
  function Tag(uid: string): (t: string)
    ensures |t| == |uid| + 3 && t[..3] == "ID:" && t[3..] == uid
  {
    "ID:" + uid
  }

  /** The first user with this name. */
  function ByName(users: seq<User>, name: string): (r: Option<nat>)
    ensures r.Some? ==> r.value < |users| && users[r.value].username == name
    ensures r.Some? ==> forall k :: 0 <= k < r.value ==> users[k].username != name
    ensures r.None? <==> forall k :: 0 <= k < |users| ==> users[k].username != name
  {
    if users == [] then None
    else if users[0].username == name then Some(0)
    else match ByName(users[1..], name)
      case None => None
      case Some(i) => Some(i + 1)
  }

  /** The first user with this uid. */
  function ByUid(users: seq<User>, uid: string): (r: Option<nat>)
    ensures r.Some? ==> r.value < |users| && users[r.value].uid == uid
    ensures r.Some? ==> forall k :: 0 <= k < r.value ==> users[k].uid != uid
    ensures r.None? <==> forall k :: 0 <= k < |users| ==> users[k].uid != uid
  {
    if users == [] then None
    else if users[0].uid == uid then Some(0)
    else match ByUid(users[1..], uid)
      case None => None
      case Some(i) => Some(i + 1)
  }

  /** The first registry record whose hash is within the threshold of h. */
  function FirstMatch(records: seq<Entry>, h: string, distance: (string, string) -> int): (r: Option<nat>)
    ensures r.Some? ==> r.value < |records| && distance(h, records[r.value].imageHash) < MatchThreshold
    ensures r.Some? ==> forall k :: 0 <= k < r.value ==> distance(h, records[k].imageHash) >= MatchThreshold
    ensures r.None? <==> forall k :: 0 <= k < |records| ==> distance(h, records[k].imageHash) >= MatchThreshold
  {
    if records == [] then None
    else if distance(h, records[0].imageHash) < MatchThreshold then Some(0)
    else match FirstMatch(records[1..], h, distance)
      case None => None
      case Some(i) => Some(i + 1)
  }

  /** Some registry record already holds exactly this hash. */
  predicate HashRegistered(records: seq<Entry>, h: string) {
    exists k :: 0 <= k < |records| && records[k].imageHash == h
  }

  /**
   * What the tables guarantee: usernames, user uids and image hashes are each unique, and
   * every record's owner uid is the uid of some user.
   */
  predicate Consistent(users: seq<User>, registry: seq<Entry>) {
    && (forall i, j :: 0 <= i < j < |users| ==> users[i].username != users[j].username)
    && (forall i, j :: 0 <= i < j < |users| ==> users[i].uid != users[j].uid)
    && (forall i, j :: 0 <= i < j < |registry| ==> registry[i].imageHash != registry[j].imageHash)
    && (forall k :: 0 <= k < |registry| ==> ByUid(users, registry[k].ownerUid).Some?)
  }

  /**
   * The registry scan of stamp_image: walks the records in order and stops at the first one
   * within the threshold.
   */
  method Scan(records: seq<Entry>, h: string, distance: (string, string) -> int) returns (m: Option<nat>)
    ensures m == FirstMatch(records, h, distance)
  {
    m := None;
    var k := 0;
    while k < |records|
      invariant 0 <= k <= |records|
      invariant forall j :: 0 <= j < k ==> distance(h, records[j].imageHash) >= MatchThreshold
    {
      if distance(h, records[k].imageHash) < MatchThreshold {
        m := Some(k);
        break;
      }
      k := k + 1;
    }
    var f := FirstMatch(records, h, distance);
    if m.Some? {
      assert f.Some? && f.value >= m.value;
    }
  }

  /** A hash at distance below the threshold from itself is always found by the scan. */
  lemma RegisteredHashMatches(records: seq<Entry>, h: string, distance: (string, string) -> int)
    requires HashRegistered(records, h)
    requires distance(h, h) < MatchThreshold
    ensures FirstMatch(records, h, distance).Some?
  {
    var k :| 0 <= k < |records| && records[k].imageHash == h;
    assert distance(h, records[k].imageHash) < MatchThreshold;
  }

  /** The name of the first user with this uid, or "Unknown" when there is none. */
  function OwnerName(users: seq<User>, uid: string): (name: string)
    ensures ByUid(users, uid).Some? ==> name == users[ByUid(users, uid).value].username
    ensures (forall k :: 0 <= k < |users| ==> users[k].uid != uid) ==> name == "Unknown"
  {
    var o := ByUid(users, uid);
    if o.Some? then users[o.value].username else "Unknown"
  }

  /** How stamp_image settles a request before it embeds: refuse it, or go ahead. */
  datatype Plan = Refuse(reason: StampResult) | Proceed(index: nat, uid: string, append: bool)

  /**
   * The decision of stamp_image: an unknown user is refused; a nearby record owned by another
   * uid is a conflict; with no nearby record the hash is appended, unless exactly that hash is
   * already registered, which the registry's unique column refuses at commit.
   */
  function StampPlan(users: seq<User>, registry: seq<Entry>, username: string, h: string,
                     distance: (string, string) -> int): (p: Plan)
    ensures p == Refuse(UserNotFound) <==> ByName(users, username).None?
    ensures p.Refuse? ==> p.reason.UserNotFound? || p.reason.Conflict? || p.reason.HashTaken?
    ensures p.Refuse? && p.reason.Conflict? <==>
      && ByName(users, username).Some?
      && FirstMatch(registry, h, distance).Some?
      && registry[FirstMatch(registry, h, distance).value].ownerUid != users[ByName(users, username).value].uid
    ensures p.Refuse? && p.reason.Conflict? ==>
      p.reason.owner == OwnerName(users, registry[FirstMatch(registry, h, distance).value].ownerUid)
    ensures p == Refuse(HashTaken) <==>
      && ByName(users, username).Some?
      && (forall k :: 0 <= k < |registry| ==> distance(h, registry[k].imageHash) >= MatchThreshold)
      && HashRegistered(registry, h)
    ensures p.Proceed? ==> p.index < |users| && users[p.index].username == username && p.uid == users[p.index].uid
    ensures p.Proceed? ==>
      (p.append <==> forall k :: 0 <= k < |registry| ==> distance(h, registry[k].imageHash) >= MatchThreshold)
    ensures p.Proceed? && p.append ==> !HashRegistered(registry, h)
    ensures p.Proceed? && !p.append ==>
      exists k :: 0 <= k < |registry| && distance(h, registry[k].imageHash) < MatchThreshold && registry[k].ownerUid == p.uid
  {
    var ui := ByName(users, username);
    if ui.None? then Refuse(UserNotFound)
    else
      var uid := users[ui.value].uid;
      var m := FirstMatch(registry, h, distance);
      if m.Some? && registry[m.value].ownerUid != uid then Refuse(Conflict(OwnerName(users, registry[m.value].ownerUid)))
      else if m.None? && HashRegistered(registry, h) then Refuse(HashTaken)
      else Proceed(ui.value, uid, m.None?)
  }

  /**
   * With a distance under which every hash is near itself (a Hamming distance is 0 there),
   * the unique-hash refusal never happens: an exact re-upload always matches its record.
   */
  lemma NoHashClash(users: seq<User>, registry: seq<Entry>, username: string, h: string,
                    distance: (string, string) -> int)
    requires distance(h, h) < MatchThreshold
    ensures StampPlan(users, registry, username, h, distance) != Refuse(HashTaken)
  {
    if HashRegistered(registry, h) {
      RegisteredHashMatches(registry, h, distance);
    }
  }

  /** verify_image's answer for a user, a suspect image and the users table. */
  function Verdict(users: seq<User>, username: string, img: Image, hl: Channel -> seq<real>): VerifyResult {
    var ui := ByName(users, username);
    if ui.None? || users[ui.value].key.None? || users[ui.value].key.value == [] then NoKey
    else
      var expected := Tag(users[ui.value].uid);
      var bits := Extracted(hl(Target(img)), users[ui.value].key.value, Alpha, 8 * |expected|);
      if bits.None? then ExtractFailed
      else
        var text := Decoded(bits.value);
        Checked(text, text == expected, if text == expected then username else "Unknown")
  }

  /**
   * Stamping and then verifying: if the suspect image's HL vector is the stored key with the
   * user's tag embedded at Alpha, verification reports a match exactly when the whole tag fit
   * after the offset.
   */
  lemma VerifyAfterStamp(users: seq<User>, username: string, img: Image, hl: Channel -> seq<real>)
    requires ByName(users, username).Some?
    requires users[ByName(users, username).value].key.Some?
    requires AllBytes(users[ByName(users, username).value].uid)
    requires hl(Target(img)) == Embedded(users[ByName(users, username).value].key.value,
                                        TextToBinary(Tag(users[ByName(users, username).value].uid)), Alpha)
    ensures Verdict(users, username, img, hl) == Checked(Tag(users[ByName(users, username).value].uid), true, username)
        <==> Offset + 8 * |Tag(users[ByName(users, username).value].uid)| <= |users[ByName(users, username).value].key.value|
  {
    var u := users[ByName(users, username).value];
    var key, tag := u.key.value, Tag(u.uid);
    assert AllBytes(tag) by {
      forall k | 0 <= k < |tag| ensures tag[k] as int < 256 {
        if k >= 3 { assert tag[k] == u.uid[k - 3]; }
      }
    }
    if key != [] {
      TextWatermarkRoundTrip(key, tag, Alpha);
    }
  }

  /** The service's persistent state: the users table and the image registry. */
  class Store {
    var users: seq<User>
    var registry: seq<Entry>

    predicate Valid()
      reads this
    {
      Consistent(users, registry)
    }

    constructor ()
      ensures Valid() && users == [] && registry == []
    {
      users := [];
      registry := [];
    }

    /**
     * register_user: an existing username is refused; otherwise a user with the given fresh
     * uid and no key is added, unless that uid is already taken (the commit fails).
     */
    method Register(username: string, freshUid: string) returns (result: RegisterResult)
      requires Valid()
      modifies this
      ensures Valid()
      ensures ByName(old(users), username).Some? ==> result == UserExists && unchanged(this)
      ensures ByName(old(users), username).None? && ByUid(old(users), freshUid).Some? ==>
        result == UidTaken && unchanged(this)
      ensures ByName(old(users), username).None? && ByUid(old(users), freshUid).None? ==>
        result == Registered(freshUid) &&
        users == old(users) + [User(username, freshUid, None)] && registry == old(registry)
    {
      if ByName(users, username).Some? {
        return UserExists;
      }
      if ByUid(users, freshUid).Some? {
        return UidTaken;
      }
      ghost var before := users;
      users := users + [User(username, freshUid, None)];
      result := Registered(freshUid);
      forall k | 0 <= k < |registry| ensures ByUid(users, registry[k].ownerUid).Some? {
        var i := ByUid(before, registry[k].ownerUid).value;
        assert users[i].uid == registry[k].ownerUid;
      }
    }

    /**
     * stamp_image: an unknown user gets an error; an upload within the threshold of a record
     * owned by another uid is a conflict naming that owner; otherwise the image is watermarked
     * with the user's tag, the key slot is overwritten with the new key and, when nothing
     * matched, a record (hash, uid) is appended. Every refusal leaves both tables unchanged.
     */
    method Stamp(username: string, imageHash: string, img: Image, distance: (string, string) -> int,
                 hl: Channel -> seq<real>, rebuild: (Channel, seq<real>) -> Channel)
      returns (result: StampResult)
      requires Valid()
      modifies this
      ensures Valid()
      ensures var p := StampPlan(old(users), old(registry), username, imageHash, distance);
        p.Refuse? ==> result == p.reason && unchanged(this)
      ensures var p := StampPlan(old(users), old(registry), username, imageHash, distance);
        p.Proceed? ==>
          && result.Stamped?
          && (result.image.Rgb? <==> img.Rgb?)
          && (img.Rgb? ==> result.image.red == img.red && result.image.green == img.green)
          && Target(result.image) == rebuild(Target(img), Embedded(hl(Target(img)), TextToBinary(Tag(p.uid)), Alpha))
      ensures var p := StampPlan(old(users), old(registry), username, imageHash, distance);
        p.Proceed? ==> users == old(users)[p.index := old(users)[p.index].(key := Some(hl(Target(img))))]
      ensures var p := StampPlan(old(users), old(registry), username, imageHash, distance);
        p.Proceed? ==> registry == old(registry) + (if p.append then [Entry(imageHash, p.uid)] else [])
    {
      var p := Decide(username, imageHash, distance);
      if p.Refuse? {
        return p.reason;
      }
      var out, key := EmbedWatermark(img, Tag(p.uid), Alpha, hl, rebuild);
      Commit(p.index, key, p.append, imageHash);
      result := Stamped(out);
    }

    /** The lookups and the registry scan of stamp_image, which settle the request. */
    method Decide(username: string, imageHash: string, distance: (string, string) -> int) returns (p: Plan)
      ensures p == StampPlan(users, registry, username, imageHash, distance)
    {
      var ui := ByName(users, username);
      if ui.None? {
        return Refuse(UserNotFound);
      }
      var uid := users[ui.value].uid;
      var m := Scan(registry, imageHash, distance);
      if m.Some? && registry[m.value].ownerUid != uid {
        return Refuse(Conflict(OwnerName(users, registry[m.value].ownerUid)));
      }
      if m.None? && HashRegistered(registry, imageHash) {
        return Refuse(HashTaken);
      }
      p := Proceed(ui.value, uid, m.None?);
    }

    /**
     * The commit of stamp_image: overwrites user i's key and, when asked, appends a record of
     * the hash owned by that user's uid.
     */
    method Commit(i: nat, key: seq<real>, append: bool, imageHash: string)
      requires Valid() && i < |users|
      requires append ==> !HashRegistered(registry, imageHash)
      modifies this
      ensures Valid()
      ensures users == old(users)[i := old(users)[i].(key := Some(key))]
      ensures registry == old(registry) + (if append then [Entry(imageHash, old(users)[i].uid)] else [])
    {
      var user := users[i];
      KeyUpdateConsistent(users, registry, i, Some(key));
      users := users[i := user.(key := Some(key))];
      if append {
        assert users[i].uid == user.uid;
        AppendConsistent(users, registry, Entry(imageHash, user.uid));
        registry := registry + [Entry(imageHash, user.uid)];
      }
    }

    /**
     * verify_image: an unknown user or one without a stored key gets an error; otherwise the
     * bits are extracted with the stored key for the length of the user's tag, decoded, and
     * compared with the tag. Nothing is changed.
     */
    method Verify(username: string, img: Image, hl: Channel -> seq<real>) returns (result: VerifyResult)
      ensures result == Verdict(users, username, img, hl)
      ensures result.Checked? ==>
        && ByName(users, username).Some?
        && (result.isMatch <==> result.text == Tag(users[ByName(users, username).value].uid))
        && result.owner == (if result.isMatch then username else "Unknown")
    {
      var ui := ByName(users, username);
      if ui.None? || users[ui.value].key.None? || users[ui.value].key.value == [] {
        return NoKey;
      }
      var user := users[ui.value];
      var expected := Tag(user.uid);
      var bits := ExtractWatermark(img, user.key.value, Alpha, 8 * |expected|, hl);
      if bits.None? {
        return ExtractFailed;
      }
      var text := BinaryToText(bits.value);
      var isMatch := text == expected;
      result := Checked(text, isMatch, if isMatch then username else "Unknown");
    }
  }

  /** Overwriting one user's key keeps the tables consistent. */
  lemma KeyUpdateConsistent(users: seq<User>, registry: seq<Entry>, i: nat, key: Option<seq<real>>)
    requires Consistent(users, registry) && i < |users|
    ensures Consistent(users[i := users[i].(key := key)], registry)
  {
    var after := users[i := users[i].(key := key)];
    forall id ensures ByUid(after, id) == ByUid(users, id) {
      SameUids(users, after, id);
    }
  }

  /** Appending a record with a new hash and a known owner keeps the tables consistent. */
  lemma AppendConsistent(users: seq<User>, registry: seq<Entry>, e: Entry)
    requires Consistent(users, registry)
    requires !HashRegistered(registry, e.imageHash) && ByUid(users, e.ownerUid).Some?
    ensures Consistent(users, registry + [e])
  {
    var after := registry + [e];
    forall i, j | 0 <= i < j < |after| ensures after[i].imageHash != after[j].imageHash {
      if j == |registry| {
        assert after[i] == registry[i];
      }
    }
  }

  /** Lookups by uid see only the uids, so tables with the same uids answer alike. */
  lemma {:induction false} SameUids(a: seq<User>, b: seq<User>, uid: string)
    requires |a| == |b| && forall k :: 0 <= k < |a| ==> a[k].uid == b[k].uid
    ensures ByUid(a, uid) == ByUid(b, uid)
  {
    if a != [] {
      SameUids(a[1..], b[1..], uid);
    }
  }
}

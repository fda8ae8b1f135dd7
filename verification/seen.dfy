/**
 * The persistent record of translations the player has seen
 * (`persistent._seen_translates` and the two counters in renpy/ast.py,
 * shared by `TranslateSay.execute` and `EndTranslate.execute`).
 */
module SeenTranslations {
  import opened Wrappers

  /** A recorded identifier: its raw text, or its 64-bit hash when `config.hash_seen` is set. */
  datatype Key = Raw(text: string) | Hashed(code: int)

  /** The persistent set and the two session counters (`seen_translates_count`, `new_translates_count`). */
  datatype Seen = Seen(keys: set<Key>, seenCount: nat, newCount: nat)

  /** An identifier counts as seen when either its raw text or its hash is recorded. */
  predicate IsSeen(s: Seen, tlid: string, hash64: string -> int)
  {
    Raw(tlid) in s.keys || Hashed(hash64(tlid)) in s.keys
  }

  /** The key `config.hash_seen` selects for an identifier. */
  function KeyFor(tlid: string, hashSeen: bool, hash64: string -> int): Key
  {
    if hashSeen then Hashed(hash64(tlid)) else Raw(tlid)
  }

  /**
   * Mark one translation seen: when neither form is recorded, record the
   * configured form and bump both counters; otherwise nothing changes.
   */
  function MarkSeen(s: Seen, tlid: string, hashSeen: bool, hash64: string -> int): (r: Seen)
    ensures IsSeen(r, tlid, hash64)
    ensures s.keys <= r.keys && |r.keys - s.keys| <= 1
    ensures r.seenCount - s.seenCount == r.newCount - s.newCount == (if IsSeen(s, tlid, hash64) then 0 else 1)
    ensures IsSeen(s, tlid, hash64) ==> r == s
    ensures !IsSeen(s, tlid, hash64) ==> r.keys == s.keys + {KeyFor(tlid, hashSeen, hash64)}
  {
    if IsSeen(s, tlid, hash64) then s
    else
      var k := KeyFor(tlid, hashSeen, hash64);
      assert s.keys + {k} - s.keys <= {k};
      Seen(s.keys + {k}, s.seenCount + 1, s.newCount + 1)
  }

  /**
   * Marking again is a no-op, even when `config.hash_seen` was switched in
   * between: the membership test looks for both the raw and the hashed form.
   */
  lemma MarkSeenIdempotent(s: Seen, tlid: string, h1: bool, h2: bool, hash64: string -> int)
    ensures MarkSeen(MarkSeen(s, tlid, h1, hash64), tlid, h2, hash64) == MarkSeen(s, tlid, h1, hash64)
  {
  }

  /** Mark each identifier in turn, as a run of translated lines does. */
  function MarkAll(s: Seen, ids: seq<string>, hashSeen: bool, hash64: string -> int): Seen
    decreases |ids|
  {
    if |ids| == 0 then s else MarkAll(MarkSeen(s, ids[0], hashSeen, hash64), ids[1..], hashSeen, hash64)
  }

  /** The distinct identifiers of `ids` not yet recorded. */
  ghost function Unseen(s: Seen, ids: seq<string>, hash64: string -> int): set<string>
  {
    set t | t in ids && !IsSeen(s, t, hash64)
  }

  /** Hashing does not merge identifiers (always true of raw keys). */
  ghost predicate KeysSeparate(hashSeen: bool, hash64: string -> int)
  {
    hashSeen ==> forall a, b :: hash64(a) == hash64(b) ==> a == b
  }

  lemma MarkOneUnseen(s: Seen, t: string, ids: seq<string>, hashSeen: bool, hash64: string -> int)
    requires KeysSeparate(hashSeen, hash64)
    ensures Unseen(MarkSeen(s, t, hashSeen, hash64), ids, hash64) == Unseen(s, ids, hash64) - {t}
  {
    var r := MarkSeen(s, t, hashSeen, hash64);
    forall u | u in ids ensures IsSeen(r, u, hash64) <==> IsSeen(s, u, hash64) || u == t {
      if !IsSeen(s, t, hash64) {
        assert r.keys == s.keys + {KeyFor(t, hashSeen, hash64)};
      }
    }
  }

  /**
   * Counting: over a run of identifiers, both counters grow by exactly the
   * number of distinct identifiers that were not yet seen, provided the
   * hash does not merge identifiers.
   */
  lemma {:induction false} MarkAllCounts(s: Seen, ids: seq<string>, hashSeen: bool, hash64: string -> int)
    requires KeysSeparate(hashSeen, hash64)
    ensures MarkAll(s, ids, hashSeen, hash64).seenCount == s.seenCount + |Unseen(s, ids, hash64)|
    ensures MarkAll(s, ids, hashSeen, hash64).newCount == s.newCount + |Unseen(s, ids, hash64)|
    ensures forall t :: t in ids ==> IsSeen(MarkAll(s, ids, hashSeen, hash64), t, hash64)
    decreases |ids|
  {
    if |ids| > 0 {
      var t := ids[0];
      var r := MarkSeen(s, t, hashSeen, hash64);
      MarkAllCounts(r, ids[1..], hashSeen, hash64);
      MarkOneUnseen(s, t, ids[1..], hashSeen, hash64);
      var u := Unseen(s, ids, hash64);
      assert forall x :: x in ids <==> x == t || x in ids[1..];
      assert Unseen(s, ids[1..], hash64) - {t} == u - {t};
      if IsSeen(s, t, hash64) {
        assert t !in u;
      } else {
        assert t in u;
        assert |u| == |u - {t}| + 1;
      }
      MarkAllKeepsSeen(r, ids[1..], hashSeen, hash64, t);
    }
  }

  /** Marking never forgets. */
  lemma {:induction false} MarkAllKeepsSeen(s: Seen, ids: seq<string>, hashSeen: bool, hash64: string -> int, t: string)
    requires IsSeen(s, t, hash64)
    ensures IsSeen(MarkAll(s, ids, hashSeen, hash64), t, hash64)
    decreases |ids|
  {
    if |ids| > 0 {
      MarkAllKeepsSeen(MarkSeen(s, ids[0], hashSeen, hash64), ids[1..], hashSeen, hash64, t);
    }
  }
}

/** The inverted index of `FingerprintDB` (src/fingerprint.rs): a map from
    fingerprint to the list of places it was seen, a song catalog, and the
    vote-and-pick-the-maximum recognition over it. */
module Index {
  import opened Common
  import opened Fft
  import opened Peaks
  import opened Fingerprints

  /** Catalog entry of one indexed song. */
  datatype SongMetaData = SongMetaData(songId: nat, title: string)

  /** One occurrence of a fingerprint: the song and the anchor's offset in ms. */
  datatype Posting = Posting(songId: nat, offsetMs: nat)

  type PostingMap = map<Fingerprint, seq<Posting>>

  /** The whole database. `totalFingerprints` is the counter the code keeps,
      which is not the number of postings (see `AddSong`). */
  datatype FingerprintDB = FingerprintDB(database: PostingMap, songs: map<nat, SongMetaData>, totalFingerprints: nat)

  /** `FingerprintDB::new`. */
  function NewDB(): (db: FingerprintDB)
    ensures db.database == map[] && db.songs == map[] && db.totalFingerprints == 0
    ensures TotalPostings(db.database) == 0
  {
    FingerprintDB(map[], map[], 0)
  }

  /** The posting list of `k`; an absent key has none. */
  function PostingsOf(m: PostingMap, k: Fingerprint): seq<Posting> {
    if k in m then m[k] else []
  }

  /** `entry(k).or_insert_with(Vec::new).push(p)`. */
  function Insert(m: PostingMap, k: Fingerprint, p: Posting): (r: PostingMap)
    ensures forall k' :: k' in r <==> k' in m || k' == k
    ensures PostingsOf(r, k) == PostingsOf(m, k) + [p]
    ensures forall k' :: k' != k ==> PostingsOf(r, k') == PostingsOf(m, k')
  {
    m[k := PostingsOf(m, k) + [p]]
  }

  /** Reference: the postings a song contributes under key `k`, one per
      generated pair with that key, in generation order. */
  function PostingsFor(fps: seq<(Fingerprint, nat)>, songId: nat, k: Fingerprint): seq<Posting>
    decreases |fps|
  {
    if |fps| == 0 then []
    else
      var last := fps[|fps| - 1];
      PostingsFor(fps[..|fps| - 1], songId, k) + (if last.0 == k then [Posting(songId, last.1)] else [])
  }

  /** A song's posting `(songId, off)` is under key `k` exactly when the pair
      `(k, off)` was generated. */
  lemma {:induction false} PostingsForMembers(fps: seq<(Fingerprint, nat)>, songId: nat, k: Fingerprint, off: nat)
    ensures Posting(songId, off) in PostingsFor(fps, songId, k) <==> (k, off) in fps
    ensures forall i :: 0 <= i < |PostingsFor(fps, songId, k)| ==> PostingsFor(fps, songId, k)[i].songId == songId
    decreases |fps|
  {
    if |fps| > 0 {
      var init := fps[..|fps| - 1];
      PostingsForMembers(init, songId, k, off);
      assert fps == init + [fps[|fps| - 1]];
    }
  }

  /** The insertion loop of `add_song`: every generated pair is appended, in
      order, to the list of its key. */
  function InsertAll(m: PostingMap, fps: seq<(Fingerprint, nat)>, songId: nat): (r: PostingMap)
    ensures forall k :: PostingsOf(r, k) == PostingsOf(m, k) + PostingsFor(fps, songId, k)
    decreases |fps|
  {
    if |fps| == 0 then m
    else
      var last := fps[|fps| - 1];
      var init := fps[..|fps| - 1];
      assert fps == init + [last];
      InsertExtends(m, InsertAll(m, init, songId), init, last.0, last.1, songId);
      Insert(InsertAll(m, init, songId), last.0, Posting(songId, last.1))
  }

  /** One more push keeps the posting lists equal to the old ones followed by
      the song's postings for the pairs so far. */
  lemma InsertExtends(m: PostingMap, prev: PostingMap, init: seq<(Fingerprint, nat)>, fp: Fingerprint, off: nat,
                      songId: nat)
    requires forall k :: PostingsOf(prev, k) == PostingsOf(m, k) + PostingsFor(init, songId, k)
    ensures forall k :: PostingsOf(Insert(prev, fp, Posting(songId, off)), k)
                        == PostingsOf(m, k) + PostingsFor(init + [(fp, off)], songId, k)
  {
    var fps := init + [(fp, off)];
    assert fps[..|fps| - 1] == init;
    forall k
      ensures PostingsOf(Insert(prev, fp, Posting(songId, off)), k) == PostingsOf(m, k) + PostingsFor(fps, songId, k)
    {
      if k == fp {
        assert PostingsOf(m, k) + PostingsFor(init, songId, k) + [Posting(songId, off)]
            == PostingsOf(m, k) + (PostingsFor(init, songId, k) + [Posting(songId, off)]);
      }
    }
  }

  /** The loop adds a key exactly when some pair carries it. */
  lemma {:induction false} InsertAllKeys(m: PostingMap, fps: seq<(Fingerprint, nat)>, songId: nat)
    ensures forall k :: k in InsertAll(m, fps, songId) <==> k in m || PostingsFor(fps, songId, k) != []
    decreases |fps|
  {
    if |fps| > 0 {
      InsertAllKeys(m, fps[..|fps| - 1], songId);
    }
  }

  /** Some key of a non-empty index. */
  ghost function SomeKey(m: PostingMap): (k: Fingerprint)
    requires m != map[]
    ensures k in m
  {
    var k :| k in m; k
  }

  /** The number of postings over all keys. */
  ghost function TotalPostings(m: PostingMap): nat
    decreases |m|
  {
    if m == map[] then 0
    else
      var k := SomeKey(m);
      assert m.Keys == (m - {k}).Keys + {k};
      |m[k]| + TotalPostings(m - {k})
  }

  /** The total splits into any one key's list and the rest. */
  lemma {:induction false} TotalPostingsRemove(m: PostingMap, k: Fingerprint)
    requires k in m
    ensures TotalPostings(m) == |m[k]| + TotalPostings(m - {k})
    decreases |m|
  {
    assert m != map[];
    var j := SomeKey(m);
    if j != k {
      assert m.Keys == (m - {j}).Keys + {j};
      assert m.Keys == (m - {k}).Keys + {k};
      TotalPostingsRemove(m - {j}, k);
      TotalPostingsRemove(m - {k}, j);
      assert m - {j} - {k} == m - {k} - {j};
    }
  }

  /** One push adds exactly one posting. */
  lemma InsertAddsOne(m: PostingMap, k: Fingerprint, p: Posting)
    ensures TotalPostings(Insert(m, k, p)) == TotalPostings(m) + 1
  {
    var r := Insert(m, k, p);
    TotalPostingsRemove(r, k);
    assert r - {k} == m - {k};
    if k in m {
      TotalPostingsRemove(m, k);
    } else {
      assert m - {k} == m;
    }
  }

  /** The insertion loop adds exactly one posting per generated pair. */
  lemma {:induction false} InsertAllCount(m: PostingMap, fps: seq<(Fingerprint, nat)>, songId: nat)
    ensures TotalPostings(InsertAll(m, fps, songId)) == TotalPostings(m) + |fps|
    decreases |fps|
  {
    if |fps| > 0 {
      var last := fps[|fps| - 1];
      InsertAllCount(m, fps[..|fps| - 1], songId);
      InsertAddsOne(InsertAll(m, fps[..|fps| - 1], songId), last.0, Posting(songId, last.1));
    }
  }

  /** The body of `add_song` once the pairs `fps` are generated: index every
      pair under the song's id, record the song in the catalog, and add the
      number of distinct keys now in the index (not the number just added)
      to `total_fingerprints`. */
  function IndexSong(db: FingerprintDB, meta: SongMetaData, fps: seq<(Fingerprint, nat)>): (r: FingerprintDB)
    ensures forall j :: 0 <= j < |fps| ==>
              fps[j].0 in r.database && Posting(meta.songId, fps[j].1) in r.database[fps[j].0]
    ensures forall k :: k in db.database ==>
              k in r.database && |db.database[k]| <= |r.database[k]|
              && r.database[k][..|db.database[k]|] == db.database[k]
    ensures forall k :: k in r.database ==> k in db.database || exists j :: 0 <= j < |fps| && fps[j].0 == k
    ensures meta.songId in r.songs && r.songs[meta.songId] == meta
    ensures forall id :: id != meta.songId ==>
              (id in r.songs <==> id in db.songs) && (id in db.songs ==> r.songs[id] == db.songs[id])
    ensures r.totalFingerprints == db.totalFingerprints + |r.database|
  {
    var m := InsertAll(db.database, fps, meta.songId);
    InsertAllKeys(db.database, fps, meta.songId);
    forall k | k in db.database
      ensures k in m && |db.database[k]| <= |m[k]| && m[k][..|db.database[k]|] == db.database[k]
    {
      assert PostingsOf(m, k) == db.database[k] + PostingsFor(fps, meta.songId, k);
    }
    forall j | 0 <= j < |fps|
      ensures fps[j].0 in m && Posting(meta.songId, fps[j].1) in m[fps[j].0]
    {
      PostingsForMembers(fps, meta.songId, fps[j].0, fps[j].1);
    }
    forall k | k in m && k !in db.database
      ensures exists j :: 0 <= j < |fps| && fps[j].0 == k
    {
      var ps := PostingsFor(fps, meta.songId, k);
      assert ps[0] in ps;
      PostingsForMembers(fps, meta.songId, k, ps[0].offsetMs);
      var j :| 0 <= j < |fps| && fps[j] == (k, ps[0].offsetMs);
    }
    FingerprintDB(m, db.songs[meta.songId := meta], db.totalFingerprints + |m|)
  }

  /** Indexing adds exactly one posting per pair, and under each key exactly
      the song's postings for that key, in order. */
  lemma IndexSongPostings(db: FingerprintDB, meta: SongMetaData, fps: seq<(Fingerprint, nat)>)
    ensures var r := IndexSong(db, meta, fps);
            && TotalPostings(r.database) == TotalPostings(db.database) + |fps|
            && forall k :: PostingsOf(r.database, k) == PostingsOf(db.database, k) + PostingsFor(fps, meta.songId, k)
  {
    InsertAllCount(db.database, fps, meta.songId);
  }

  /** `add_song`: generate the song's pairs, then index them. Every key the
      song brings into the index is canonical and inside the pairing window. */
  function AddSong(db: FingerprintDB, meta: SongMetaData, peaks: seq<Peak>, c: SpectrogramConfig,
                   rng: (nat, nat) -> nat): (r: FingerprintDB)
    requires ValidConfig(c)
    ensures forall k :: k in r.database && k !in db.database ==> k.freq1 <= k.freq2 && InWindow(k.timeDelta)
    ensures |r.database| <= |db.database| + NUM_TARGET_PEAKS * |peaks|
  {
    var fps := GenerateFingerprints(peaks, c, rng);
    var r := IndexSong(db, meta, fps);
    forall k | k in r.database && k !in db.database
      ensures k.freq1 <= k.freq2 && InWindow(k.timeDelta)
    {
      var j :| 0 <= j < |fps| && fps[j].0 == k;
    }
    NewKeysBound(db.database, r.database, fps);
    r
  }

  /** The index grows by at most one key per pair. */
  lemma NewKeysBound(before: PostingMap, after: PostingMap, fps: seq<(Fingerprint, nat)>)
    requires forall k :: k in after ==> k in before || exists j :: 0 <= j < |fps| && fps[j].0 == k
    ensures |after| <= |before| + |fps|
  {
    var keys := set j | 0 <= j < |fps| :: fps[j].0;
    assert after.Keys <= before.Keys + keys by {
      forall k | k in after && k !in before
        ensures k in keys
      {
        var j :| 0 <= j < |fps| && fps[j].0 == k;
      }
    }
    ImageBound(fps);
    SubsetCardinality(after.Keys, before.Keys + keys);
  }

  /** A subset is no larger than its superset. */
  lemma {:induction false} SubsetCardinality<T>(a: set<T>, b: set<T>)
    requires a <= b
    ensures |a| <= |b|
    decreases |a|
  {
    if a != {} {
      var x :| x in a;
      SubsetCardinality(a - {x}, b - {x});
    }
  }

  /** A sequence has at most as many distinct first components as entries. */
  lemma {:induction false} ImageBound(fps: seq<(Fingerprint, nat)>)
    ensures |set j | 0 <= j < |fps| :: fps[j].0| <= |fps|
  {
    if |fps| > 0 {
      var init := fps[..|fps| - 1];
      ImageBound(init);
      assert (set j | 0 <= j < |fps| :: fps[j].0)
          == (set j | 0 <= j < |init| :: init[j].0) + {fps[|fps| - 1].0};
    }
  }

  // ---- Alignment -------------------------------------------------------

  const U32_MODULUS: nat := 0x1_0000_0000

  /** `offset - time_offset` on `u32` as written: in a release build the
      subtraction wraps modulo 2^32 (a debug build panics instead whenever the
      query offset is the larger one). */
  function WrappingAlignment(dbOff: nat, qOff: nat): (r: nat)
    requires dbOff <= U32_MAX && qOff <= U32_MAX
    ensures r <= U32_MAX
    ensures r % U32_MODULUS == (dbOff - qOff) % U32_MODULUS
  {
    (dbOff - qOff) % U32_MODULUS
  }

  /** When the query offset is larger, the wrapped value is not the offset
      difference: adding the query offset back does not give the stored one. */
  lemma WrappingAlignmentUnderflows(dbOff: nat, qOff: nat)
    requires qOff <= U32_MAX && dbOff < qOff
    ensures qOff + WrappingAlignment(dbOff, qOff) == dbOff + U32_MODULUS
    ensures qOff + WrappingAlignment(dbOff, qOff) != dbOff
  {
  }

  /** A stored offset of 0 ms met by a query offset of 100 ms. */
  lemma WrappingAlignmentExample()
    ensures WrappingAlignment(0, 100) == 4294967196
    ensures 100 + WrappingAlignment(0, 100) != 0
  {
    WrappingAlignmentUnderflows(0, 100);
  }

  /** Database time minus query time, as a signed number of ms. */
  function Alignment(dbOff: nat, qOff: nat): (r: int)
    ensures qOff + r == dbOff
  {
    dbOff - qOff
  }

  /** Without underflow the wrapped and the signed difference agree. */
  lemma AlignmentAgreesWithoutUnderflow(dbOff: nat, qOff: nat)
    requires dbOff <= U32_MAX && qOff <= dbOff
    ensures Alignment(dbOff, qOff) == WrappingAlignment(dbOff, qOff)
  {
  }

  /** Adding the same amount to both offsets leaves their difference, the
      alignment, unchanged. */
  lemma AlignmentShift(dbOff: nat, qOff: nat, s: nat)
    ensures Alignment(dbOff + s, qOff + s) == Alignment(dbOff, qOff)
  {
  }

  // ---- Voting ------------------------------------------------------------

  /** A vote bucket: the song and the alignment offset. */
  datatype VoteKey = VoteKey(songId: nat, alignment: int)

  type Votes = map<VoteKey, nat>

  /** The bucket posting `p` votes for when met at query offset `qOff`. */
  function KeyOf(p: Posting, qOff: nat): VoteKey {
    VoteKey(p.songId, Alignment(p.offsetMs, qOff))
  }

  /** The count of a bucket; an absent bucket has none. */
  function VotesOf(v: Votes, k: VoteKey): nat {
    if k in v then v[k] else 0
  }

  /** Reference: how many postings of `ps` vote for `key` at query offset `qOff`. */
  function MatchesIn(ps: seq<Posting>, qOff: nat, key: VoteKey): nat {
    if |ps| == 0 then 0
    else (if KeyOf(ps[0], qOff) == key then 1 else 0) + MatchesIn(ps[1..], qOff, key)
  }

  /** Reference: how many (query pair, posting) matches vote for `key`. */
  function Tally(m: PostingMap, q: seq<(Fingerprint, nat)>, key: VoteKey): nat
    decreases |q|
  {
    if |q| == 0 then 0
    else
      var last := q[|q| - 1];
      Tally(m, q[..|q| - 1], key) + MatchesIn(PostingsOf(m, last.0), last.1, key)
  }

  /** The inner loop of `recognize_song`: one `+= 1` per posting. */
  function AddVotes(v: Votes, ps: seq<Posting>, qOff: nat): (r: Votes)
    ensures forall key :: VotesOf(r, key) == VotesOf(v, key) + MatchesIn(ps, qOff, key)
    ensures forall key :: key in r <==> key in v || MatchesIn(ps, qOff, key) > 0
    decreases |ps|
  {
    if |ps| == 0 then v
    else
      var key := KeyOf(ps[0], qOff);
      AddVotes(v[key := VotesOf(v, key) + 1], ps[1..], qOff)
  }

  /** The vote counter after the loop over all query pairs; pairs whose key is
      not in the index add nothing. */
  function CountVotes(m: PostingMap, q: seq<(Fingerprint, nat)>): (r: Votes)
    ensures forall key :: VotesOf(r, key) == Tally(m, q, key)
    ensures forall key :: key in r <==> Tally(m, q, key) > 0
    decreases |q|
  {
    if |q| == 0 then map[]
    else
      var last := q[|q| - 1];
      AddVotes(CountVotes(m, q[..|q| - 1]), PostingsOf(m, last.0), last.1)
  }

  /** Some query pair has a key that is in the index. */
  predicate AnyHit(m: PostingMap, q: seq<(Fingerprint, nat)>) {
    exists j :: 0 <= j < |q| && PostingsOf(m, q[j].0) != []
  }

  /** Every query pair's matches are part of the tally. */
  lemma {:induction false} TallyIncludes(m: PostingMap, q: seq<(Fingerprint, nat)>, j: nat, key: VoteKey)
    requires j < |q|
    ensures MatchesIn(PostingsOf(m, q[j].0), q[j].1, key) <= Tally(m, q, key)
    decreases |q|
  {
    if j < |q| - 1 {
      TallyIncludes(m, q[..|q| - 1], j, key);
    }
  }

  /** A non-zero tally comes from some query pair that hits the index. */
  lemma {:induction false} TallyHit(m: PostingMap, q: seq<(Fingerprint, nat)>, key: VoteKey)
    requires Tally(m, q, key) > 0
    ensures AnyHit(m, q)
    decreases |q|
  {
    var last := q[|q| - 1];
    if MatchesIn(PostingsOf(m, last.0), last.1, key) > 0 {
      assert PostingsOf(m, q[|q| - 1].0) != [];
    } else {
      TallyHit(m, q[..|q| - 1], key);
      var j :| 0 <= j < |q| - 1 && PostingsOf(m, q[..|q| - 1][j].0) != [];
      assert q[..|q| - 1][j] == q[j];
    }
  }

  /** The vote counter is empty exactly when no query pair hits the index. */
  lemma VotesEmptyIffNoHit(m: PostingMap, q: seq<(Fingerprint, nat)>)
    ensures |CountVotes(m, q)| == 0 <==> !AnyHit(m, q)
  {
    var v := CountVotes(m, q);
    if AnyHit(m, q) {
      var j :| 0 <= j < |q| && PostingsOf(m, q[j].0) != [];
      var key := KeyOf(PostingsOf(m, q[j].0)[0], q[j].1);
      TallyIncludes(m, q, j, key);
      assert key in v;
    } else if |v| != 0 {
      var key :| key in v;
      TallyHit(m, q, key);
    }
  }

  /** A posting that votes for `key` adds at least one match. */
  lemma {:induction false} MatchesInMember(ps: seq<Posting>, qOff: nat, key: VoteKey, p: Posting)
    requires p in ps && KeyOf(p, qOff) == key
    ensures MatchesIn(ps, qOff, key) >= 1
  {
    if ps[0] != p {
      assert p in ps[1..];
      MatchesInMember(ps[1..], qOff, key, p);
    }
  }

  /** If every query pair `(k, qOff)` finds song `id` stored under `k` at
      `qOff + s`, the bucket `(id, s)` gets at least one vote per query pair. */
  lemma {:induction false} TallyShifted(m: PostingMap, q: seq<(Fingerprint, nat)>, id: nat, s: nat)
    requires forall j :: 0 <= j < |q| ==> Posting(id, q[j].1 + s) in PostingsOf(m, q[j].0)
    ensures Tally(m, q, VoteKey(id, s)) >= |q|
    decreases |q|
  {
    if |q| > 0 {
      var init := q[..|q| - 1];
      var last := q[|q| - 1];
      assert forall j :: 0 <= j < |init| ==> init[j] == q[j];
      TallyShifted(m, init, id, s);
      MatchesInMember(PostingsOf(m, last.0), last.1, VoteKey(id, s), Posting(id, last.1 + s));
    }
  }

  /** A snippet cut from an indexed song: every query pair is one of the
      song's pairs with its offset moved back by `s`. Then the bucket
      (song, `s`) gets at least one vote per query pair, so by the
      maximality of `RecognizeQuery` the reported bucket has at least as
      many votes as there are query pairs. */
  lemma ShiftedSnippetVotes(db: FingerprintDB, meta: SongMetaData, fps: seq<(Fingerprint, nat)>,
                            q: seq<(Fingerprint, nat)>, s: nat)
    requires forall j :: 0 <= j < |q| ==> (q[j].0, q[j].1 + s) in fps
    ensures Tally(IndexSong(db, meta, fps).database, q, VoteKey(meta.songId, s)) >= |q|
    ensures |q| > 0 ==> AnyHit(IndexSong(db, meta, fps).database, q)
  {
    TallyShifted(IndexSong(db, meta, fps).database, q, meta.songId, s);
  }

  /** `k` is a bucket no other bucket beats. */
  predicate IsMaxKey(v: Votes, k: VoteKey) {
    k in v && forall k' :: k' in v ==> v[k'] <= v[k]
  }

  /** A non-empty counter has a bucket no other bucket beats. */
  lemma {:induction false} MaxKeyExists(v: Votes)
    requires |v| > 0
    ensures exists k :: IsMaxKey(v, k)
    decreases |v|
  {
    var k0 :| k0 in v;
    var rest := v - {k0};
    assert |rest| < |v| by {
      assert v.Keys == rest.Keys + {k0};
    }
    if |rest| == 0 {
      assert IsMaxKey(v, k0) by {
        forall k' | k' in v
          ensures v[k'] <= v[k0]
        {
        }
      }
    } else {
      MaxKeyExists(rest);
      var k1 :| IsMaxKey(rest, k1);
      var best := if v[k0] <= v[k1] then k1 else k0;
      assert IsMaxKey(v, best) by {
        forall k' | k' in v
          ensures v[k'] <= v[best]
        {
          if k' != k0 {
            assert k' in rest;
          }
        }
      }
    }
  }

  /** The outcome of a recognition. The confidence `votes / totalQuery` is
      kept as its two integers. */
  datatype MatchResult = MatchResult(songId: nat, votes: nat, totalQuery: nat, timeOffset: int)

  /** The voting of `recognize_song` over the query pairs `q`: count the
      votes of every (query pair, posting) match and report a bucket with the
      most votes; `None` when nothing matched. Ties between buckets are
      broken arbitrarily, like the map iteration order. */
  method RecognizeQuery(m: PostingMap, q: seq<(Fingerprint, nat)>) returns (r: Option<MatchResult>)
    ensures r.None? <==> !AnyHit(m, q)
    ensures r.Some? ==>
              && r.value.votes == Tally(m, q, VoteKey(r.value.songId, r.value.timeOffset))
              && (forall key :: Tally(m, q, key) <= r.value.votes)
              && r.value.votes >= 1
              && r.value.totalQuery == |q| > 0
  {
    var votes := CountVotes(m, q);
    VotesEmptyIffNoHit(m, q);
    if |votes| == 0 {
      return None;
    }
    MaxKeyExists(votes);
    var best :| IsMaxKey(votes, best);
    assert forall key :: Tally(m, q, key) <= votes[best] by {
      forall key
        ensures Tally(m, q, key) <= votes[best]
      {
        if key in votes {
          assert VotesOf(votes, key) == votes[key];
        }
      }
    }
    assert VotesOf(votes, best) == votes[best];
    r := Some(MatchResult(best.songId, votes[best], |q|, best.alignment));
  }

  /** `recognize_song`: generate the query's pairs, then vote. */
  method RecognizeSong(db: FingerprintDB, peaks: seq<Peak>, c: SpectrogramConfig, rng: (nat, nat) -> nat)
    returns (r: Option<MatchResult>)
    requires ValidConfig(c)
    ensures var q := GenerateFingerprints(peaks, c, rng);
            r.None? <==> !AnyHit(db.database, q)
    ensures r.Some? ==>
              var q := GenerateFingerprints(peaks, c, rng);
              && r.value.votes == Tally(db.database, q, VoteKey(r.value.songId, r.value.timeOffset))
              && (forall key :: Tally(db.database, q, key) <= r.value.votes)
              && r.value.votes >= 1
              && r.value.totalQuery == |q| > 0
  {
    var q := GenerateFingerprints(peaks, c, rng);
    r := RecognizeQuery(db.database, q);
  }

  /** Indexing one pair appends one posting under its key. */
  lemma IndexOnePair(db: FingerprintDB, meta: SongMetaData, fp: Fingerprint, off: nat)
    ensures PostingsOf(IndexSong(db, meta, [(fp, off)]).database, fp)
            == PostingsOf(db.database, fp) + [Posting(meta.songId, off)]
  {
    var one := [(fp, off)];
    assert one[..0] == [];
    assert PostingsFor(one, meta.songId, fp) == [Posting(meta.songId, off)];
    IndexSongPostings(db, meta, one);
  }

  /** The confidence is not bounded by 1: after the same song is added
      twice, one query pair matching it gives its bucket two votes. */
  lemma ConfidenceCanExceedOne(meta: SongMetaData, fp: Fingerprint)
    ensures var once := IndexSong(NewDB(), meta, [(fp, 0)]);
            var twice := IndexSong(once, meta, [(fp, 0)]);
            Tally(twice.database, [(fp, 0)], VoteKey(meta.songId, 0)) == 2
  {
    var once := IndexSong(NewDB(), meta, [(fp, 0)]);
    var twice := IndexSong(once, meta, [(fp, 0)]);
    var p := Posting(meta.songId, 0);
    IndexOnePair(NewDB(), meta, fp, 0);
    IndexOnePair(once, meta, fp, 0);
    assert PostingsOf(twice.database, fp) == [p, p];
    var q := [(fp, 0)];
    assert q[..0] == [];
    assert [p, p][1..] == [p];
    assert [p][1..] == [];
    assert MatchesIn([p], 0, VoteKey(meta.songId, 0)) == 1;
  }
}

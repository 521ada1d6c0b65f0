/**
 Open addressing with tombstones as CFBasicHash.c uses it, on sequences of
 slots: counting, linear probing, and the chain invariant that makes probing find
 what is stored.
 */
module HashSlots {
  import opened Machine

  /** A pointer-sized word. */
  type Word = x: int | 0 <= x < 0x1_0000_0000_0000_0000

  const MAX_WORD: Word := 0xFFFF_FFFF_FFFF_FFFF

  datatype Entry = Entry(value: Word, count: nat)

  datatype Slot = Empty | Tombstone | Live(key: Word, entry: Entry)

  // ----- counting -----

  function LiveCount(s: seq<Slot>): (n: nat)
    ensures n <= |s|
  {
    if s == [] then 0 else LiveCount(s[..|s| - 1]) + (if s[|s| - 1].Live? then 1 else 0)
  }

  function TombCount(s: seq<Slot>): (n: nat)
    ensures n + LiveCount(s) <= |s|
  {
    if s == [] then 0 else TombCount(s[..|s| - 1]) + (if s[|s| - 1].Tombstone? then 1 else 0)
  }

  lemma {:induction false} CountUpdate(s: seq<Slot>, i: nat, x: Slot)
    requires i < |s|
    ensures LiveCount(s[i := x]) == LiveCount(s) - One(s[i].Live?) + One(x.Live?)
    ensures TombCount(s[i := x]) == TombCount(s) - One(s[i].Tombstone?) + One(x.Tombstone?)
  {
    var n := |s| - 1;
    var r := s[i := x];
    if i < n {
      CountUpdate(s[..n], i, x);
      assert r[..n] == s[..n][i := x];
    } else {
      assert r[..n] == s[..n];
    }
  }

  lemma {:induction false} CountEmpty(s: seq<Slot>)
    requires forall i :: 0 <= i < |s| ==> s[i].Empty?
    ensures LiveCount(s) == 0 && TombCount(s) == 0
  {
    if s != [] {
      CountEmpty(s[..|s| - 1]);
    }
  }

  lemma {:induction false} NoTombs(s: seq<Slot>)
    requires TombCount(s) == 0
    ensures forall i :: 0 <= i < |s| ==> !s[i].Tombstone?
    decreases |s|
  {
    if s != [] {
      NoTombs(s[..|s| - 1]);
      forall i | 0 <= i < |s| ensures !s[i].Tombstone? {
        if i < |s| - 1 {
          assert s[i] == s[..|s| - 1][i];
        }
      }
    }
  }

  lemma {:induction false} SomeLive(s: seq<Slot>, i: nat)
    requires i < |s| && s[i].Live?
    ensures LiveCount(s) > 0
    decreases |s|
  {
    var n := |s| - 1;
    if i < n {
      assert s[..n][i].Live?;
      SomeLive(s[..n], i);
    }
  }

  lemma {:induction false} TombstoneCounted(s: seq<Slot>, i: nat)
    requires i < |s| && s[i].Tombstone?
    ensures TombCount(s) > 0
    decreases |s|
  {
    var n := |s| - 1;
    if i < n {
      assert s[..n][i].Tombstone?;
      TombstoneCounted(s[..n], i);
    }
  }

  lemma {:induction false} LivePrefix(s: seq<Slot>, n: nat)
    requires n <= |s|
    ensures LiveCount(s[..n]) <= LiveCount(s)
    decreases |s|
  {
    if n < |s| {
      var t := s[..|s| - 1];
      LivePrefix(t, n);
      assert t[..n] == s[..n];
    } else {
      assert s[..n] == s;
    }
  }

  // ----- linear probing -----

  /** The d-th bucket that a probe from h visits in a table of n buckets. */
  function At(h: nat, d: nat, n: nat): (p: nat)
    requires h < n && d < n
    ensures p < n
  {
    if h + d < n then h + d else h + d - n
  }

  /** How far bucket p lies behind h on the probe. */
  function Distance(h: nat, p: nat, n: nat): (d: nat)
    requires h < n && p < n
    ensures d < n && At(h, d, n) == p
  {
    if h <= p then p - h else p + n - h
  }

  lemma AtDistance(h: nat, d: nat, n: nat)
    requires h < n && d < n
    ensures Distance(h, At(h, d, n), n) == d
  {
  }

  type Hash = Word -> nat

  function Home(hash: Hash, key: Word, n: nat): (h: nat)
    requires n > 0
    ensures h < n
  {
    hash(key) % n
  }

  /** Every bucket that a probe for the key of a live slot passes before it is in use or was. */
  ghost predicate Chained(s: seq<Slot>, hash: Hash) {
    forall b, d :: 0 <= b < |s| && s[b].Live? && 0 <= d < Distance(Home(hash, s[b].key, |s|), b, |s|)
      ==> !s[At(Home(hash, s[b].key, |s|), d, |s|)].Empty?
  }

  ghost predicate Unique(s: seq<Slot>) {
    forall i, j :: 0 <= i < j < |s| && s[i].Live? && s[j].Live? ==> s[i].key != s[j].key
  }

  predicate Holds(s: seq<Slot>, i: int, key: Word) {
    0 <= i < |s| && s[i].Live? && s[i].key == key
  }

  /** What looking a key up has to return: its bucket, or a bucket where it may be put, or none in a full table. */
  ghost predicate Found(s: seq<Slot>, hash: Hash, key: Word, b: int, found: bool) {
    && (found <==> exists i :: Holds(s, i, key))
    && (found ==> Holds(s, b, key))
    && (!found && LiveCount(s) < |s| ==> Insertable(s, hash, key, b))
  }

  /** A free bucket whose probe from the key's home passes no empty bucket. */
  ghost predicate Insertable(s: seq<Slot>, hash: Hash, key: Word, b: int) {
    && 0 <= b < |s| && !s[b].Live?
    && forall d :: 0 <= d < Distance(Home(hash, key, |s|), b, |s|) ==> !s[At(Home(hash, key, |s|), d, |s|)].Empty?
  }

  /** The first d buckets of the probe are in use by other keys, or tombstones. */
  ghost predicate Passed(s: seq<Slot>, hash: Hash, key: Word, d: nat)
    requires 0 < |s| && d <= |s|
  {
    forall e :: 0 <= e < d ==>
      var x := s[At(Home(hash, key, |s|), e, |s|)]; !x.Empty? && (x.Live? ==> x.key != key)
  }

  lemma PassedNone(s: seq<Slot>, hash: Hash, key: Word)
    requires 0 < |s|
    ensures Passed(s, hash, key, 0)
  {
  }

  lemma PassedOne(s: seq<Slot>, hash: Hash, key: Word, d: nat)
    requires d < |s| && Passed(s, hash, key, d)
    requires var x := s[At(Home(hash, key, |s|), d, |s|)]; !x.Empty? && (x.Live? ==> x.key != key)
    ensures Passed(s, hash, key, d + 1)
  {
  }

  lemma PassedFewer(s: seq<Slot>, hash: Hash, key: Word, d: nat, e: nat)
    requires 0 < |s| && d <= |s| && Passed(s, hash, key, d)
    ensures e <= d ==> Passed(s, hash, key, e)
  {
  }

  lemma MissAtEmpty(s: seq<Slot>, hash: Hash, key: Word, d: nat)
    requires Chained(s, hash) && d < |s| && Passed(s, hash, key, d)
    requires s[At(Home(hash, key, |s|), d, |s|)].Empty?
    ensures forall i :: !Holds(s, i, key)
  {
    var n, h := |s|, Home(hash, key, |s|);
    forall i | 0 <= i < n ensures !Holds(s, i, key) {
      assert At(h, Distance(h, i, n), n) == i;
    }
  }

  lemma MissAtEnd(s: seq<Slot>, hash: Hash, key: Word)
    requires 0 < |s| && Passed(s, hash, key, |s|)
    ensures forall i :: !Holds(s, i, key)
  {
    var n, h := |s|, Home(hash, key, |s|);
    forall i | 0 <= i < n ensures !Holds(s, i, key) {
      assert At(h, Distance(h, i, n), n) == i;
    }
  }

  lemma FreeBucket(s: seq<Slot>, hash: Hash, key: Word, d: nat)
    requires 0 < |s| && d < |s| && Passed(s, hash, key, d) && !s[At(Home(hash, key, |s|), d, |s|)].Live?
    ensures Insertable(s, hash, key, At(Home(hash, key, |s|), d, |s|))
  {
    AtDistance(Home(hash, key, |s|), d, |s|);
  }

  lemma {:induction false} AllLiveCount(s: seq<Slot>)
    requires forall i :: 0 <= i < |s| ==> s[i].Live?
    ensures LiveCount(s) == |s|
  {
    if s != [] {
      AllLiveCount(s[..|s| - 1]);
    }
  }

  /** If every bucket on a full round of the probe is live, there is no room. */
  lemma AllLive(s: seq<Slot>, h: nat)
    requires h < |s| && forall e :: 0 <= e < |s| ==> s[At(h, e, |s|)].Live?
    ensures LiveCount(s) == |s|
  {
    forall i | 0 <= i < |s| ensures s[i].Live? {
      assert At(h, Distance(h, i, |s|), |s|) == i;
    }
    AllLiveCount(s);
  }

  // ----- what the operations keep -----

  /** The live slots are exactly the entries of a finite map. */
  ghost predicate Agrees(s: seq<Slot>, m: map<Word, Entry>) {
    && (forall i :: 0 <= i < |s| && s[i].Live? ==> s[i].key in m && m[s[i].key] == s[i].entry)
    && (forall k :: k in m ==> exists i :: Holds(s, i, k))
  }

  ghost predicate Sound(s: seq<Slot>, hash: Hash, m: map<Word, Entry>) {
    Chained(s, hash) && Unique(s) && Agrees(s, m)
  }

  lemma PutChained(s: seq<Slot>, hash: Hash, b: nat, key: Word, e: Entry)
    requires b < |s| && Chained(s, hash) && Insertable(s, hash, key, b)
    ensures Chained(s[b := Live(key, e)], hash)
  {
    var r := s[b := Live(key, e)];
    forall c, d | 0 <= c < |r| && r[c].Live? && 0 <= d < Distance(Home(hash, r[c].key, |r|), c, |r|)
      ensures !r[At(Home(hash, r[c].key, |r|), d, |r|)].Empty?
    {
      if c != b {
        assert !s[At(Home(hash, s[c].key, |s|), d, |s|)].Empty?;
      }
    }
  }

  lemma PutSound(s: seq<Slot>, hash: Hash, m: map<Word, Entry>, b: nat, key: Word, e: Entry)
    requires b < |s| && Sound(s, hash, m) && Insertable(s, hash, key, b) && key !in m
    ensures Sound(s[b := Live(key, e)], hash, m[key := e])
  {
    var r, m' := s[b := Live(key, e)], m[key := e];
    PutChained(s, hash, b, key, e);
    forall k | k in m' ensures exists i :: Holds(r, i, k) {
      if k == key {
        assert Holds(r, b, k);
      } else {
        var i :| Holds(s, i, k);
        assert Holds(r, i, k);
      }
    }
  }

  lemma SetSound(s: seq<Slot>, hash: Hash, m: map<Word, Entry>, b: nat, e: Entry)
    requires b < |s| && Sound(s, hash, m) && s[b].Live?
    ensures Sound(s[b := Live(s[b].key, e)], hash, m[s[b].key := e])
  {
    var key := s[b].key;
    var r, m' := s[b := Live(key, e)], m[key := e];
    forall c, d | 0 <= c < |r| && r[c].Live? && 0 <= d < Distance(Home(hash, r[c].key, |r|), c, |r|)
      ensures !r[At(Home(hash, r[c].key, |r|), d, |r|)].Empty?
    {
      assert !s[At(Home(hash, s[c].key, |s|), d, |s|)].Empty?;
    }
    forall k | k in m' ensures exists i :: Holds(r, i, k) {
      var i :| Holds(s, i, k);
      assert Holds(r, i, k);
    }
  }

  lemma RemoveSound(s: seq<Slot>, hash: Hash, m: map<Word, Entry>, b: nat)
    requires b < |s| && Sound(s, hash, m) && s[b].Live?
    ensures Sound(s[b := Tombstone], hash, m - {s[b].key})
  {
    var r, m' := s[b := Tombstone], m - {s[b].key};
    forall c, d | 0 <= c < |r| && r[c].Live? && 0 <= d < Distance(Home(hash, r[c].key, |r|), c, |r|)
      ensures !r[At(Home(hash, r[c].key, |r|), d, |r|)].Empty?
    {
      assert !s[At(Home(hash, s[c].key, |s|), d, |s|)].Empty?;
    }
    forall k | k in m' ensures exists i :: Holds(r, i, k) {
      var i :| Holds(s, i, k);
      assert Holds(r, i, k);
    }
  }

  lemma EmptySound(s: seq<Slot>, hash: Hash)
    requires forall i :: 0 <= i < |s| ==> s[i].Empty?
    ensures Sound(s, hash, map[])
  {
  }
}

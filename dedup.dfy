/** The clean-up step of the results fetch: one entry per e-mail address (compared after
    lower-casing and trimming), the most recent one kept, the survivors sorted newest first.
    Fetching the pages and writing the file are left out. The functions and lemmas take the
    normalisation as a parameter `key`; the script's own is Key. */
module Dedup {
  import opened Text
  import StableSort

  /** One fetched result; `createdAt` is the creation time as a number. */
  datatype Entry = Entry(userId: int, fullname: string, email: string, responseId: int, createdAt: int)

  /** `user.email.toLowerCase().trim()`. */
  function Key(e: Entry): (r: string)
    ensures |r| <= |e.email|
    ensures forall k :: 0 <= k < |r| ==> !IsUpper(r[k])
    ensures r != [] ==> !IsSpace(r[0]) && !IsSpace(r[|r| - 1])
  {
    TrimKeepsLower(ToLower(e.email));
    Trim(ToLower(e.email))
  }

  /** Two addresses are the same client exactly when their keys agree, and normalising a key
      again changes nothing: the key is a normal form. */
  lemma KeyIsNormalForm(e: Entry)
    ensures Trim(ToLower(Key(e))) == Key(e)
  {
    var r := Key(e);
    assert ToLower(r) == r;
    TrimOfTrimmed(r);
  }

  function CreatedAt(e: Entry): int { e.createdAt }

  /** The position of the entry whose key is `x`, or -1. */
  function Find(w: seq<Entry>, key: Entry -> string, x: string): (r: int)
    ensures -1 <= r < |w|
    ensures r >= 0 ==> key(w[r]) == x
    ensures r < 0 ==> forall k :: 0 <= k < |w| ==> key(w[k]) != x
  {
    if w == [] then -1
    else if key(w[|w| - 1]) == x then |w| - 1
    else Find(w[..|w| - 1], key, x)
  }

  /** The values of `emailMap`, in its iteration order, after one more entry `e`: a new key
      is appended; an old key keeps its position and takes `e` only when `e` is strictly more
      recent. */
  function Update(w: seq<Entry>, key: Entry -> string, e: Entry): seq<Entry> {
    var p := Find(w, key, key(e));
    if p < 0 then w + [e]
    else if e.createdAt > w[p].createdAt then w[p := e]
    else w
  }

  /** The values of `emailMap` after the entries `s`. */
  function Kept(s: seq<Entry>, key: Entry -> string): seq<Entry> {
    if s == [] then [] else Update(Kept(s[..|s| - 1], key), key, s[|s| - 1])
  }

  /** `cleanedResults`: the kept entries sorted newest first; equal times keep map order. */
  function Cleaned(s: seq<Entry>): seq<Entry> {
    StableSort.Sort(Kept(s, Key), CreatedAt)
  }

  lemma KeptStep(s: seq<Entry>, key: Entry -> string, i: int)
    requires 0 <= i < |s|
    ensures Kept(s[..i + 1], key) == Update(Kept(s[..i], key), key, s[i])
  {
    assert s[..i + 1][..i] == s[..i];
  }

  // ---------------------------------------------------------------------------------------
  // The loop

  ghost predicate DistinctKeys(keys: seq<string>) {
    forall a, b :: 0 <= a < b < |keys| ==> keys[a] != keys[b]
  }

  /** `emailMap` with its key order `keys` holds exactly the entries `w`, each under its key. */
  ghost predicate Mirrors(emailMap: map<string, Entry>, keys: seq<string>, w: seq<Entry>, key: Entry -> string) {
    && |keys| == |w|
    && DistinctKeys(keys)
    && (forall x :: x in emailMap <==> x in keys)
    && (forall k :: 0 <= k < |keys| ==> emailMap[keys[k]] == w[k] && key(w[k]) == keys[k])
  }

  /** A key the map lacks is new; a key it has sits at the one position of that key. */
  lemma MirrorFind(emailMap: map<string, Entry>, keys: seq<string>, w: seq<Entry>, key: Entry -> string, x: string)
    requires Mirrors(emailMap, keys, w, key)
    ensures x !in emailMap ==> Find(w, key, x) < 0
    ensures x in emailMap ==> 0 <= Find(w, key, x) && keys[Find(w, key, x)] == x && emailMap[x] == w[Find(w, key, x)]
  {
    if x in emailMap {
      var p := Find(w, key, x);
      var m :| 0 <= m < |keys| && keys[m] == x;
      assert key(w[m]) == x;
      if p != m {
        assert false;
      }
    }
  }

  /** Replacing the entry at the position of its key keeps the map mirrored. */
  lemma MirrorReplace(emailMap: map<string, Entry>, keys: seq<string>, w: seq<Entry>, key: Entry -> string, p: int, e: Entry)
    requires Mirrors(emailMap, keys, w, key)
    requires 0 <= p < |w| && keys[p] == key(e)
    ensures Mirrors(emailMap[key(e) := e], keys, w[p := e], key)
  {
    assert forall k :: 0 <= k < |keys| && k != p ==> keys[k] != keys[p];
  }

  /** Appending an entry under a new key keeps the map mirrored. */
  lemma MirrorAppend(emailMap: map<string, Entry>, keys: seq<string>, w: seq<Entry>, key: Entry -> string, e: Entry)
    requires Mirrors(emailMap, keys, w, key) && key(e) !in emailMap
    ensures Mirrors(emailMap[key(e) := e], keys + [key(e)], w + [e], key)
  {
  }

  /** One pass of the `forEach`, with the script's normalisation passed as `key`. */
  method Absorb(all: seq<Entry>, key: Entry -> string, i: int, emailMap: map<string, Entry>, keys: seq<string>)
    returns (emailMap': map<string, Entry>, keys': seq<string>)
    requires 0 <= i < |all|
    requires Mirrors(emailMap, keys, Kept(all[..i], key), key)
    ensures Mirrors(emailMap', keys', Kept(all[..i + 1], key), key)
  {
    var user := all[i];
    var email := key(user);
    ghost var w := Kept(all[..i], key);
    KeptStep(all, key, i);
    MirrorFind(emailMap, keys, w, key, email);
    emailMap', keys' := emailMap, keys;
    if email !in emailMap {
      MirrorAppend(emailMap, keys, w, key, user);
      emailMap' := emailMap[email := user];
      keys' := keys + [email];
    } else {
      var existing := emailMap[email];
      if user.createdAt > existing.createdAt {
        MirrorReplace(emailMap, keys, w, key, Find(w, key, email), user);
        emailMap' := emailMap[email := user];
      }
    }
  }

  /** The dedup loop, then the sort of the map's values. */
  method RemoveDuplicates(all: seq<Entry>) returns (cleaned: seq<Entry>, duplicatesRemoved: int)
    ensures cleaned == Cleaned(all)
    ensures duplicatesRemoved == |all| - |cleaned|
  {
    var emailMap: map<string, Entry> := map[];
    var keys: seq<string> := [];
    for i := 0 to |all|
      invariant Mirrors(emailMap, keys, Kept(all[..i], Key), Key)
    {
      emailMap, keys := Absorb(all, Key, i, emailMap, keys);
    }
    assert all[..|all|] == all;
    var values := new Entry[|keys|](k requires 0 <= k < |keys| => emailMap[keys[k]]);
    assert values[..] == Kept(all, Key);
    StableSort.SortInPlace(values, CreatedAt);
    cleaned := values[..];
    duplicatesRemoved := |all| - |cleaned|;
  }

  // ---------------------------------------------------------------------------------------
  // Facts about the kept entries

  /** Every entry of `w` is an entry of `s`. */
  ghost predicate Drawn(w: seq<Entry>, s: seq<Entry>) {
    forall k :: 0 <= k < |w| ==> w[k] in s
  }

  /** No more entries than the input, one per key, each taken from the input. */
  lemma {:induction false} KeptShape(s: seq<Entry>, key: Entry -> string)
    ensures |Kept(s, key)| <= |s|
    ensures StableSort.DistinctBy(Kept(s, key), key)
    ensures Drawn(Kept(s, key), s)
  {
    if s != [] {
      var n := |s| - 1;
      KeptShape(s[..n], key);
      KeptStepOf(s, key);
      ShapeStep(s[..n], Kept(s[..n], key), key, s[n], Kept(s, key));
    }
  }

  lemma ShapeStep(front: seq<Entry>, w: seq<Entry>, key: Entry -> string, e: Entry, w': seq<Entry>)
    requires |w| <= |front| && StableSort.DistinctBy(w, key) && Drawn(w, front)
    requires w' == Update(w, key, e)
    ensures |w'| <= |front| + 1 && StableSort.DistinctBy(w', key) && Drawn(w', front + [e])
  {
    var s := front + [e];
    forall k | 0 <= k < |w'| ensures w'[k] in s {
      if k < |w| && w'[k] == w[k] {
        assert w[k] in front;
      } else {
        assert w'[k] == e;
      }
    }
  }

  /** Some entry of `w` has key `x`. */
  ghost predicate HasKey(w: seq<Entry>, key: Entry -> string, x: string) {
    exists k :: 0 <= k < |w| && key(w[k]) == x
  }

  /** Every key of `s` is a key of `w`. */
  ghost predicate Covers(s: seq<Entry>, w: seq<Entry>, key: Entry -> string) {
    forall i :: 0 <= i < |s| ==> HasKey(w, key, key(s[i]))
  }

  /** Every key of the input has its entry. */
  lemma {:induction false} KeptCovers(s: seq<Entry>, key: Entry -> string)
    ensures Covers(s, Kept(s, key), key)
  {
    if s != [] {
      var n := |s| - 1;
      KeptCovers(s[..n], key);
      KeptStepOf(s, key);
      CoversStep(s[..n], Kept(s[..n], key), key, s[n], Kept(s, key));
    }
  }

  /** Kept grows by one update per entry. */
  lemma KeptStepOf(s: seq<Entry>, key: Entry -> string)
    requires s != []
    ensures Kept(s, key) == Update(Kept(s[..|s| - 1], key), key, s[|s| - 1])
    ensures s[..|s| - 1] + [s[|s| - 1]] == s
  {
    LastSplit(s);
  }

  lemma LastSplit(s: seq<Entry>)
    requires s != []
    ensures s[..|s| - 1] + [s[|s| - 1]] == s
  {
  }

  /** A key present before the update is present after it. */
  lemma StepKeepsKey(w: seq<Entry>, key: Entry -> string, e: Entry, w': seq<Entry>, k: int) returns (k': int)
    requires w' == Update(w, key, e) && 0 <= k < |w|
    ensures 0 <= k' < |w'| && key(w'[k']) == key(w[k])
  {
    k' := k;
  }

  /** The updating entry's key is present after the update. */
  lemma StepHasKey(w: seq<Entry>, key: Entry -> string, e: Entry, w': seq<Entry>) returns (k': int)
    requires w' == Update(w, key, e)
    ensures 0 <= k' < |w'| && key(w'[k']) == key(e)
  {
    var p := Find(w, key, key(e));
    k' := if p < 0 then |w| else p;
  }

  lemma CoversStep(front: seq<Entry>, w: seq<Entry>, key: Entry -> string, e: Entry, w': seq<Entry>)
    requires Covers(front, w, key) && w' == Update(w, key, e)
    ensures Covers(front + [e], w', key)
  {
    var s := front + [e];
    forall i | 0 <= i < |s| ensures HasKey(w', key, key(s[i])) {
      if i < |front| {
        assert s[i] == front[i];
        var k :| 0 <= k < |w| && key(w[k]) == key(front[i]);
        var k' := StepKeepsKey(w, key, e, w', k);
      } else {
        var k' := StepHasKey(w, key, e, w');
      }
    }
  }

  ghost predicate Latest(s: seq<Entry>, w: seq<Entry>, key: Entry -> string) {
    forall k, i :: 0 <= k < |w| && 0 <= i < |s| && key(s[i]) == key(w[k]) ==> s[i].createdAt <= w[k].createdAt
  }

  /** The kept entry of a key is at least as recent as every input entry with that key. */
  lemma {:induction false} KeptIsLatest(s: seq<Entry>, key: Entry -> string)
    ensures Latest(s, Kept(s, key), key)
  {
    if s != [] {
      var n := |s| - 1;
      KeptIsLatest(s[..n], key);
      KeptShape(s[..n], key);
      KeptCovers(s[..n], key);
      KeptStepOf(s, key);
      LatestStep(s[..n], Kept(s[..n], key), key, s[n], Kept(s, key));
    }
  }

  lemma LatestStep(front: seq<Entry>, w: seq<Entry>, key: Entry -> string, e: Entry, w': seq<Entry>)
    requires StableSort.DistinctBy(w, key)
    requires Covers(front, w, key) && Latest(front, w, key) && w' == Update(w, key, e)
    ensures Latest(front + [e], w', key)
  {
    var p := Find(w, key, key(e));
    var s := front + [e];
    forall k, i | 0 <= k < |w'| && 0 <= i < |s| && key(s[i]) == key(w'[k])
      ensures s[i].createdAt <= w'[k].createdAt
    {
      if i < |front| {
        assert s[i] == front[i];
        assert HasKey(w, key, key(front[i]));
        if p >= 0 && k != p {
          assert w'[k] == w[k];
        }
      }
    }
  }

  /** `x` sits at index `i` of `s`, and every earlier entry of `s` with its key is strictly older. */
  ghost predicate FirstLatestAt(s: seq<Entry>, key: Entry -> string, x: Entry, i: int) {
    && 0 <= i < |s| && s[i] == x
    && forall j :: 0 <= j < i && key(s[j]) == key(x) ==> s[j].createdAt < x.createdAt
  }

  /** `x` occurs in `s` before every entry with its key that is as recent as it. */
  ghost predicate SeenFirst(s: seq<Entry>, key: Entry -> string, x: Entry) {
    exists i :: FirstLatestAt(s, key, x, i)
  }

  /** Each entry of `w` is the first entry of `s` that reaches its key's latest time. */
  ghost predicate FirstSeen(s: seq<Entry>, w: seq<Entry>, key: Entry -> string) {
    forall k :: 0 <= k < |w| ==> SeenFirst(s, key, w[k])
  }

  /** On equal times the first-seen entry stays, since only a strictly later one replaces it. */
  lemma {:induction false} KeptIsFirstSeen(s: seq<Entry>, key: Entry -> string)
    ensures FirstSeen(s, Kept(s, key), key)
  {
    if s != [] {
      var n := |s| - 1;
      KeptIsFirstSeen(s[..n], key);
      KeptIsLatest(s[..n], key);
      KeptCovers(s[..n], key);
      KeptStepOf(s, key);
      FirstSeenStep(s[..n], Kept(s[..n], key), key, s[n], Kept(s, key));
    }
  }

  lemma FirstSeenStep(front: seq<Entry>, w: seq<Entry>, key: Entry -> string, e: Entry, w': seq<Entry>)
    requires Covers(front, w, key) && Latest(front, w, key) && FirstSeen(front, w, key)
    requires w' == Update(w, key, e)
    ensures FirstSeen(front + [e], w', key)
  {
    var p := Find(w, key, key(e));
    var s := front + [e];
    forall k | 0 <= k < |w'| ensures SeenFirst(s, key, w'[k]) {
      if k < |w| && w'[k] == w[k] {
        assert SeenFirst(front, key, w[k]);
        var i :| FirstLatestAt(front, key, w[k], i);
        assert FirstLatestAt(s, key, w'[k], i);
      } else {
        assert w'[k] == e;
        forall j | 0 <= j < |front| && key(s[j]) == key(e) ensures s[j].createdAt < e.createdAt {
          assert s[j] == front[j];
          assert HasKey(w, key, key(front[j]));
        }
        assert FirstLatestAt(s, key, w'[k], |front|);
      }
    }
  }

  // ---------------------------------------------------------------------------------------
  // Facts about the cleaned results

  /** At most one entry per normalised e-mail address. */
  lemma CleanedUnique(all: seq<Entry>)
    ensures StableSort.DistinctBy(Cleaned(all), Key)
  {
    KeptShape(all, Key);
    StableSort.SortPermutes(Kept(all, Key), CreatedAt);
    StableSort.PermutationKeepsDistinct(Cleaned(all), Kept(all, Key), Key);
  }

  /** Every cleaned entry is one of the fetched entries. */
  lemma CleanedFromInput(all: seq<Entry>)
    ensures forall k :: 0 <= k < |Cleaned(all)| ==> Cleaned(all)[k] in all
  {
    var w, c := Kept(all, Key), Cleaned(all);
    KeptShape(all, Key);
    StableSort.SortPermutes(w, CreatedAt);
    forall k | 0 <= k < |c| ensures c[k] in all {
      assert c[k] in multiset(w);
    }
  }

  /** Every normalised address of the input has its entry among the cleaned results. */
  lemma CleanedCovers(all: seq<Entry>)
    ensures forall i :: 0 <= i < |all| ==> exists k :: 0 <= k < |Cleaned(all)| && Key(Cleaned(all)[k]) == Key(all[i])
  {
    var w, c := Kept(all, Key), Cleaned(all);
    KeptCovers(all, Key);
    StableSort.SortPermutes(w, CreatedAt);
    forall i | 0 <= i < |all| ensures HasKey(c, Key, Key(all[i])) {
      assert HasKey(w, Key, Key(all[i]));
      var k :| 0 <= k < |w| && Key(w[k]) == Key(all[i]);
      assert w[k] in multiset(c);
    }
  }

  /** The entry kept for an address is the most recent of that address, and no earlier entry
      of the address is as recent. */
  lemma CleanedKeepsFirstLatest(all: seq<Entry>, k: int)
    requires 0 <= k < |Cleaned(all)|
    ensures forall i :: 0 <= i < |all| && Key(all[i]) == Key(Cleaned(all)[k]) ==> all[i].createdAt <= Cleaned(all)[k].createdAt
    ensures SeenFirst(all, Key, Cleaned(all)[k])
  {
    var w, c := Kept(all, Key), Cleaned(all);
    KeptIsLatest(all, Key);
    KeptIsFirstSeen(all, Key);
    StableSort.SortPermutes(w, CreatedAt);
    assert c[k] in multiset(w);
    var m :| 0 <= m < |w| && w[m] == c[k];
    assert SeenFirst(all, Key, w[m]);
  }

  /** Newest first. */
  lemma CleanedNewestFirst(all: seq<Entry>)
    ensures forall a, b :: 0 <= a < b < |Cleaned(all)| ==> Cleaned(all)[a].createdAt >= Cleaned(all)[b].createdAt
  {
    StableSort.SortOrders(Kept(all, Key), CreatedAt);
  }

  /** The count of removed duplicates is never negative. */
  lemma DuplicatesRemovedNonNegative(all: seq<Entry>)
    ensures 0 <= |all| - |Cleaned(all)|
  {
    KeptShape(all, Key);
    StableSort.SortPermutes(Kept(all, Key), CreatedAt);
    assert |Cleaned(all)| == |multiset(Cleaned(all))|;
  }
}

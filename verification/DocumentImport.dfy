/** `import_document`: one memory per chunk, keyed by workspace, document digest and chunk number. */
module DocumentImport {
  import opened Bytes
  import opened Decimals
  import opened DocumentSplit

  const MAX_CHUNKS: nat := 200

  function Key(partition: string, digest: string, index: nat): string {
    "import:" + partition + ":" + digest + ":" + Spelled(Digits(index))
  }

  /** A SHA-256 digest in hex. */
  predicate IsDigest(d: string) {
    |d| == 64 && forall i | 0 <= i < |d| :: '0' <= d[i] <= '9' || 'a' <= d[i] <= 'f'
  }

  /** Memories by idempotency key. */
  type Memories = map<string, string>

  ghost function Imported(m: Memories, partition: string, digest: string, chunks: seq<Chunk>): Memories {
    if chunks == [] then m
    else
      var before := Imported(m, partition, digest, chunks[..|chunks| - 1]);
      var key := Key(partition, digest, |chunks|);
      if key in before then before else before[key := chunks[|chunks| - 1].body]
  }

  datatype Report = NoText | TooManySections | Report(imported: nat, alreadyPresent: nat)

  class ImportStore {
    var memories: Memories

    /** Stores only the chunks whose key is new, and counts both kinds. */
    method ImportDocument(partition: string, digest: string, chunks: seq<Chunk>) returns (r: Report)
      modifies this
      ensures chunks == [] ==> r == NoText
      ensures |chunks| > 200 ==> r == TooManySections
      ensures !r.Report? ==> memories == old(memories)
      ensures 0 < |chunks| <= MAX_CHUNKS ==> r.Report? && memories == Imported(old(memories), partition, digest, chunks)
      ensures r.Report? ==> r.imported == |memories| - |old(memories)| && r.imported + r.alreadyPresent == |chunks|
    {
      if chunks == [] {
        return NoText;
      }
      if |chunks| > MAX_CHUNKS {
        return TooManySections;
      }
      var imported, duplicates, i := 0, 0, 0;
      while i < |chunks|
        invariant i == imported + duplicates <= |chunks|
        invariant memories == Imported(old(memories), partition, digest, chunks[..i])
        invariant imported == |memories| - |old(memories)|
      {
        assert chunks[..i + 1][..i] == chunks[..i];
        var key := Key(partition, digest, i + 1);
        if key in memories {
          duplicates := duplicates + 1;
        } else {
          memories := memories[key := chunks[i].body];
          imported := imported + 1;
        }
        i := i + 1;
      }
      assert chunks[..i] == chunks;
      r := Report(imported, duplicates);
    }
  }

  /** Digits after a colon: the tail without a colon is not the longer one. */
  lemma NoLongerTail(a: string, s: string, b: string, t: string)
    requires a + s == b + t && a != "" && a[|a| - 1] == ':' && forall i | 0 <= i < |t| :: t[i] != ':'
    ensures |t| <= |s|
  {
    var k := a + s;
    assert forall i | |b| <= i < |k| :: k[i] == t[i - |b|];
    assert k[|a| - 1] == ':';
  }

  /** The key determines the workspace, the digest and the chunk number, even for a workspace id holding colons. */
  lemma KeyInjective(p: string, d: string, m: nat, q: string, e: string, n: nat)
    requires IsDigest(d) && IsDigest(e) && Key(p, d, m) == Key(q, e, n)
    ensures p == q && d == e && m == n
  {
    var a, b := "import:" + p + ":" + d + ":", "import:" + q + ":" + e + ":";
    var s, t := Spelled(Digits(m)), Spelled(Digits(n));
    var k := Key(p, d, m);
    assert k == a + s == b + t;
    NoLongerTail(a, s, b, t);
    NoLongerTail(b, t, a, s);
    assert s == k[|k| - |s|..] && t == k[|k| - |s|..];
    assert forall i | 0 <= i < |s| :: Digits(m)[i] == s[i] as int && Digits(n)[i] == t[i] as int;
    assert Digits(m) == Digits(n);
    DigitsInjective(m, n);
    assert a == k[..|k| - |s|] && b == k[..|k| - |s|];
    var h := |a| - 65;
    assert d == a[h..h + 64] && e == b[h..h + 64];
    assert p == a[7..h - 1] && q == b[7..h - 1];
  }

  /** An import leaves every key it looked for, and adds no other. */
  lemma {:induction false} ImportedKeys(m: Memories, partition: string, digest: string, chunks: seq<Chunk>, key: string)
    ensures key in Imported(m, partition, digest, chunks) <==>
              key in m || exists i :: 1 <= i <= |chunks| && key == Key(partition, digest, i)
  {
    if chunks != [] {
      ImportedKeys(m, partition, digest, chunks[..|chunks| - 1], key);
    }
  }

  /** Under a key that was not there before lies the text of its chunk, and under every other what lay there. */
  lemma {:induction false} ImportedTexts(m: Memories, partition: string, digest: string, chunks: seq<Chunk>, i: nat)
    requires IsDigest(digest) && 1 <= i <= |chunks|
    ensures var key, after := Key(partition, digest, i), Imported(m, partition, digest, chunks);
            && key in after && (key !in m ==> after[key] == chunks[i - 1].body)
            && forall k | k in m :: k in after && after[k] == m[k]
  {
    hide Key;
    var n := |chunks| - 1;
    ImportedKeeps(m, partition, digest, chunks);
    if i <= n {
      ImportedTexts(m, partition, digest, chunks[..n], i);
      if Key(partition, digest, i) == Key(partition, digest, n + 1) {
        KeyInjective(partition, digest, i, partition, digest, n + 1);
      }
    } else {
      ImportedKeys(m, partition, digest, chunks[..n], Key(partition, digest, i));
      if k: nat :| 1 <= k <= n && Key(partition, digest, k) == Key(partition, digest, i) {
        KeyInjective(partition, digest, k, partition, digest, i);
      }
    }
  }

  lemma {:induction false} ImportedKeeps(m: Memories, partition: string, digest: string, chunks: seq<Chunk>)
    ensures forall k | k in m :: k in Imported(m, partition, digest, chunks) && Imported(m, partition, digest, chunks)[k] == m[k]
  {
    hide Key;
    if chunks != [] {
      ImportedKeeps(m, partition, digest, chunks[..|chunks| - 1]);
    }
  }

  lemma {:induction false} NothingNew(m: Memories, partition: string, digest: string, chunks: seq<Chunk>)
    requires forall i | 1 <= i <= |chunks| :: Key(partition, digest, i) in m
    ensures Imported(m, partition, digest, chunks) == m
  {
    if chunks != [] {
      NothingNew(m, partition, digest, chunks[..|chunks| - 1]);
    }
  }

  /** Importing the same document into the same workspace again stores nothing. */
  lemma ReimportStoresNothing(m: Memories, partition: string, digest: string, chunks: seq<Chunk>)
    ensures var once := Imported(m, partition, digest, chunks);
            Imported(once, partition, digest, chunks) == once
  {
    var once := Imported(m, partition, digest, chunks);
    forall i | 1 <= i <= |chunks| ensures Key(partition, digest, i) in once {
      ImportedKeys(m, partition, digest, chunks, Key(partition, digest, i));
    }
    NothingNew(once, partition, digest, chunks);
  }

  /** Another workspace, or another digest, gets all its own memories whatever was imported before. */
  lemma OtherImportIsWhole(m: Memories, p: string, d: string, chunks: seq<Chunk>, q: string, e: string, i: nat)
    requires IsDigest(d) && IsDigest(e) && (p != q || d != e) && i >= 1 && Key(q, e, i) !in m
    ensures Key(q, e, i) !in Imported(m, p, d, chunks)
  {
    ImportedKeys(m, p, d, chunks, Key(q, e, i));
    forall k: nat | Key(p, d, k) == Key(q, e, i) ensures false {
      KeyInjective(p, d, k, q, e, i);
    }
  }
}

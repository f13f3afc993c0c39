/** Rainbow-table construction: hash each password, run the chain of
    reduce-then-hash rounds, and index the final digest in the search tree.
    MD5 is a parameter `md5`: any function from the password text to the
    hex text of a 16-byte digest (`hashlib.md5(p.encode('utf-8')).hexdigest()`).
    The chain functions and the index lemmas are stated for any reduction
    `reduce`; the table itself is built with `ReduceStep`, the source's
    `reduce_hash` with its default alphabet and length. */
module RainbowTable {
  import opened Wrappers
  import opened Hex
  import opened Reduction
  import opened SearchTree

  /** An MD5 digest is 16 bytes. */
  const DigestBytes: nat := 16

  /** `hexdigest()` text of an MD5 digest: 32 lower-case hex digits. */
  predicate IsDigestText(d: string)
  {
    |d| == 2 * DigestBytes && forall i :: 0 <= i < |d| ==> d[i] in LowerHexDigits
  }

  type Digest = d: string | IsDigestText(d) witness "00000000000000000000000000000000"

  /** The hex text of any 16-byte digest is digest text, and parses back to
      the digest's value. */
  lemma HexEncodeIsDigest(b: seq<Byte>)
    requires |b| == DigestBytes
    ensures IsDigestText(HexEncode(b))
    ensures ParseHex(HexEncode(b)) == Some(BytesValue(b))
  {
    ParseHexEncode(b);
  }

  /** Digest text always parses, so `int(hash_val, 16)` never raises on it. */
  lemma DigestParses(d: Digest)
    ensures ParseHex(d).Some?
  {
    forall i | 0 <= i < |d|
      ensures IsHexDigit(d[i])
    {
      var j :| 0 <= j < 16 && d[i] == LowerHexDigits[j];
      LowerHexDigitValue(j);
    }
  }

  /** `hash_passwords(passwords)`: one digest per password, in order. */
  function HashPasswords(md5: string -> Digest, passwords: seq<string>): (hashes: seq<Digest>)
    ensures |hashes| == |passwords|
    ensures forall i :: 0 <= i < |passwords| ==> hashes[i] == md5(passwords[i])
  {
    seq(|passwords|, i requires 0 <= i < |passwords| => md5(passwords[i]))
  }

  /** `reduce_hash(hash_val, j)` with the default alphabet and length, as the
      chain calls it: on a digest it always yields a six-letter lower-case
      password. */
  function ReduceStep(digest: Digest, j: int): (p: string)
    ensures |p| == DefaultWordLength
    ensures forall i :: 0 <= i < |p| ==> p[i] in Lowercase
  {
    DigestParses(digest);
    ReduceHash(digest, j, Lowercase, DefaultWordLength).value
  }

  /** A point on a chain: the current plaintext and its digest. */
  datatype Link = Link(digest: Digest, plain: string)

  /** One round at position `j`: reduce the current digest to a new
      plaintext and hash it. */
  function Step(md5: string -> Digest, reduce: (Digest, int) -> string, e: Link, j: nat): Link
  {
    var p := reduce(e.digest, j);
    Link(md5(p), p)
  }

  /** The chain from `start` after `n` rounds; round `j` reduces at
      position `j`. Every link's digest is the hash of its plaintext. */
  function ChainLink(md5: string -> Digest, reduce: (Digest, int) -> string, start: string, n: nat): (e: Link)
    ensures e.digest == md5(e.plain)
  {
    if n == 0 then Link(md5(start), start)
    else Step(md5, reduce, ChainLink(md5, reduce, start, n - 1), n - 1)
  }

  /** The inner loop of `construct_rainbow_table` run from round `from`
      for `n` more rounds, starting at link `e`. */
  function Continue(md5: string -> Digest, reduce: (Digest, int) -> string, e: Link, from: nat, n: nat): Link
    decreases n
  {
    if n == 0 then e
    else Continue(md5, reduce, Step(md5, reduce, e, from), from + 1, n - 1)
  }

  /** Replay: running the remaining `k - m` rounds from the link reached
      after `m` rounds reaches the link after `k` rounds. With `m == 0` this
      says the loop as written computes the chain. */
  lemma {:induction false} ChainSplit(md5: string -> Digest, reduce: (Digest, int) -> string,
                                      start: string, m: nat, k: nat)
    requires m <= k
    ensures Continue(md5, reduce, ChainLink(md5, reduce, start, m), m, k - m) == ChainLink(md5, reduce, start, k)
    decreases k - m
  {
    if m < k {
      ChainSplit(md5, reduce, start, m + 1, k);
    }
  }

  /** With at least one round, a chain ends on a six-letter lower-case
      word; with none it ends on the start password. */
  lemma ChainEndsOnWord(md5: string -> Digest, start: string, n: nat)
    ensures n == 0 ==> ChainLink(md5, ReduceStep, start, n).plain == start
    ensures n > 0 ==> |ChainLink(md5, ReduceStep, start, n).plain| == DefaultWordLength
    ensures n > 0 ==> forall i :: 0 <= i < DefaultWordLength ==> ChainLink(md5, ReduceStep, start, n).plain[i] in Lowercase
  {
  }

  /** The number of rounds `range(chain_length)` runs. */
  function Rounds(chainLength: int): (n: nat)
    ensures chainLength >= 0 ==> n == chainLength
    ensures chainLength < 0 ==> n == 0
  {
    if chainLength < 0 then 0 else chainLength
  }

  /** The endpoint of every password's chain, in input order. */
  function Chains(md5: string -> Digest, reduce: (Digest, int) -> string, passwords: seq<string>, rounds: nat)
    : (links: seq<Link>)
    ensures |links| == |passwords|
    ensures forall i :: 0 <= i < |passwords| ==> links[i] == ChainLink(md5, reduce, passwords[i], rounds)
  {
    seq(|passwords|, i requires 0 <= i < |passwords| => ChainLink(md5, reduce, passwords[i], rounds))
  }

  /** The index after inserting the chain endpoints in order. */
  function BuildIndex(links: seq<Link>): (t: Tree<string>)
    ensures IsBst(t)
  {
    if |links| == 0 then Leaf
    else
      var e := links[|links| - 1];
      Insert(BuildIndex(links[..|links| - 1]), e.digest, e.plain)
  }

  /** Reference meaning of the index: a map from chain endpoint to the last
      plaintext of its chain, later chains overwriting earlier ones. */
  function IndexMap(links: seq<Link>): map<string, string>
  {
    if |links| == 0 then map[]
    else
      var e := links[|links| - 1];
      IndexMap(links[..|links| - 1])[e.digest := e.plain]
  }

  function EndpointSet(links: seq<Link>): set<string>
  {
    set i | 0 <= i < |links| :: links[i].digest
  }

  /** `construct_rainbow_table(passwords, chain_length)`. The value stored
      under each endpoint is the LAST reduced plaintext of the chain (the
      loop variable `password` is overwritten before the insert), so every
      entry's key is the digest of its value; with no rounds that value is
      the password itself. */
  method ConstructRainbowTable(md5: string -> Digest, passwords: seq<string>, chainLength: int)
    returns (root: Tree<string>)
    ensures root == BuildIndex(Chains(md5, ReduceStep, passwords, Rounds(chainLength)))
    ensures IsBst(root)
    ensures Entries(root) == IndexMap(Chains(md5, ReduceStep, passwords, Rounds(chainLength)))
    ensures Keys(root) == set i | 0 <= i < |passwords| :: ChainLink(md5, ReduceStep, passwords[i], Rounds(chainLength)).digest
    ensures forall k :: k in Entries(root) ==> k == md5(Entries(root)[k])
    ensures chainLength > 0 ==> forall k :: k in Entries(root) ==> IsWord(Entries(root)[k])
  {
    var rounds := Rounds(chainLength);
    ghost var links := Chains(md5, ReduceStep, passwords, rounds);
    var hashes := HashPasswords(md5, passwords);
    root := Leaf;
    for i := 0 to |passwords|
      invariant root == BuildIndex(links[..i])
    {
      var hashVal := hashes[i];
      var password := passwords[i];
      for j := 0 to rounds
        invariant Link(hashVal, password) == ChainLink(md5, ReduceStep, passwords[i], j)
      {
        password := ReduceStep(hashVal, j);
        hashVal := md5(password);
      }
      assert links[..i + 1][..i] == links[..i];
      root := Insert(root, hashVal, password);
    }
    assert links[..|passwords|] == links;
    TableFacts(md5, ReduceStep, passwords, rounds);
    if chainLength > 0 {
      TableWords(md5, passwords, rounds);
    }
  }

  /** What the index built from the chains of `passwords` holds, for any
      reduction. */
  lemma TableFacts(md5: string -> Digest, reduce: (Digest, int) -> string, passwords: seq<string>, rounds: nat)
    ensures var t := BuildIndex(Chains(md5, reduce, passwords, rounds));
            && Entries(t) == IndexMap(Chains(md5, reduce, passwords, rounds))
            && Keys(t) == (set i | 0 <= i < |passwords| :: ChainLink(md5, reduce, passwords[i], rounds).digest)
            && forall k :: k in Entries(t) ==> k == md5(Entries(t)[k])
  {
    var links := Chains(md5, reduce, passwords, rounds);
    IndexEntries(links);
    IndexMapKeys(links);
    IndexMapPreserves(links, (k: string, v: string) => k == md5(v));
    assert EndpointSet(links) == set i | 0 <= i < |passwords| :: ChainLink(md5, reduce, passwords[i], rounds).digest;
  }

  /** A six-letter lower-case word, the shape every reduced plaintext has. */
  predicate IsWord(p: string)
  {
    |p| == DefaultWordLength && forall i :: 0 <= i < |p| ==> p[i] in Lowercase
  }

  /** With at least one round, every value the table stores is a
      six-letter lower-case word. */
  lemma TableWords(md5: string -> Digest, passwords: seq<string>, rounds: nat)
    requires rounds > 0
    ensures var t := BuildIndex(Chains(md5, ReduceStep, passwords, rounds));
            forall k :: k in Entries(t) ==> IsWord(Entries(t)[k])
  {
    var links := Chains(md5, ReduceStep, passwords, rounds);
    forall i | 0 <= i < |links| ensures IsWord(links[i].plain) {
      ChainEndsOnWord(md5, passwords[i], rounds);
    }
    IndexEntries(links);
    IndexMapPreserves(links, (k: string, v: string) => IsWord(v));
  }

  /** The tree stores exactly the reference map. */
  lemma {:induction false} IndexEntries(links: seq<Link>)
    ensures Entries(BuildIndex(links)) == IndexMap(links)
  {
    if |links| > 0 {
      var init := links[..|links| - 1];
      var e := links[|links| - 1];
      IndexEntries(init);
      InsertEntries(BuildIndex(init), e.digest, e.plain);
    }
  }

  /** The keys are exactly the chain endpoints. */
  lemma {:induction false} IndexMapKeys(links: seq<Link>)
    ensures IndexMap(links).Keys == EndpointSet(links)
  {
    if |links| > 0 {
      var n := |links| - 1;
      var init := links[..n];
      IndexMapKeys(init);
      forall d | d in EndpointSet(links)
        ensures d in EndpointSet(init) + {links[n].digest}
      {
        var i :| 0 <= i < |links| && links[i].digest == d;
        if i < n {
          assert init[i] == links[i];
        }
      }
      forall d | d in EndpointSet(init)
        ensures d in EndpointSet(links)
      {
        var i :| 0 <= i < n && init[i].digest == d;
        assert init[i] == links[i];
      }
    }
  }

  /** Every entry of the index is one of the links: a property every link
      has, every stored (key, value) pair has. */
  lemma {:induction false} IndexMapPreserves(links: seq<Link>, P: (string, string) -> bool)
    requires forall i :: 0 <= i < |links| ==> P(links[i].digest, links[i].plain)
    ensures forall k :: k in IndexMap(links) ==> P(k, IndexMap(links)[k])
  {
    if |links| > 0 {
      var init := links[..|links| - 1];
      forall i | 0 <= i < |init| ensures P(init[i].digest, init[i].plain) {
        assert init[i] == links[i];
      }
      IndexMapPreserves(init, P);
    }
  }

  /** On an endpoint collision the later chain wins: a chain that no later
      chain collides with is found under its endpoint with its own last
      plaintext. */
  lemma {:induction false} IndexMapLastWins(links: seq<Link>, i: nat)
    requires i < |links|
    requires forall j :: i < j < |links| ==> links[j].digest != links[i].digest
    ensures links[i].digest in IndexMap(links) && IndexMap(links)[links[i].digest] == links[i].plain
  {
    var n := |links| - 1;
    if i < n {
      var init := links[..n];
      assert init[i] == links[i];
      forall j | i < j < n
        ensures init[j].digest != init[i].digest
      {
        assert init[j] == links[j];
      }
      IndexMapLastWins(init, i);
    }
  }

  /** Cracking against a constructed table: whatever is returned hashes to
      the queried digest; nothing is returned exactly when the digest is no
      chain's endpoint; and the endpoint of a chain that no later chain
      collides with gives that chain's last plaintext. */
  lemma CrackConstructed(md5: string -> Digest, reduce: (Digest, int) -> string,
                         passwords: seq<string>, rounds: nat, target: string)
    ensures var t := BuildIndex(Chains(md5, reduce, passwords, rounds));
            Find(t, target).Some? ==> md5(Find(t, target).value) == target
    ensures Find(BuildIndex(Chains(md5, reduce, passwords, rounds)), target).None? <==>
              forall i :: 0 <= i < |passwords| ==> ChainLink(md5, reduce, passwords[i], rounds).digest != target
    ensures forall i :: 0 <= i < |passwords| &&
              ChainLink(md5, reduce, passwords[i], rounds).digest == target &&
              (forall j :: i < j < |passwords| ==> ChainLink(md5, reduce, passwords[j], rounds).digest != target)
              ==> Find(BuildIndex(Chains(md5, reduce, passwords, rounds)), target)
                  == Some(ChainLink(md5, reduce, passwords[i], rounds).plain)
  {
    var links := Chains(md5, reduce, passwords, rounds);
    var t := BuildIndex(links);
    FindCorrect(t, target);
    IndexEntries(links);
    IndexMapKeys(links);
    IndexMapPreserves(links, (k: string, v: string) => k == md5(v));
    forall i | 0 <= i < |passwords| &&
              links[i].digest == target &&
              (forall j :: i < j < |passwords| ==> links[j].digest != target)
      ensures Find(t, target) == Some(links[i].plain)
    {
      IndexMapLastWins(links, i);
    }
  }
}

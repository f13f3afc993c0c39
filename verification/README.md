# Rainbow table: a Dafny model

This project models the core of a small Python rainbow-table program
(`CU200187_ProgrammingCW1.py`). It has three parts:

- **The reduction function** `reduce_hash`. It parses an MD5 hex digest as an
  integer and adds the chain position, then reduces modulo 2^40. It then
  spells `word_length` base-`|alphabet|` digits, least significant first, as
  alphabet symbols (modules `Hex`, `Arith` and `Reduction`).
- **The endpoint index.** This is an unbalanced binary search tree keyed by
  digest text, with Python's string `<` as the order. It covers `insert_node`
  and the exact-match probe of `crack_password` (modules `LexOrder` and
  `SearchTree`).
- **Chain construction** `construct_rainbow_table`. Each password is hashed
  once, then goes through `chain_length` rounds of reduce-then-hash, and its
  final digest is inserted into the tree (module `RainbowTable`).

MD5 is a parameter `md5: string -> Digest`. A `Digest` is the 32-character
lower-case hex text that `hexdigest()` returns. `HexEncodeIsDigest` shows that
hex-encoding any 16 bytes gives such a text, and that the text parses back to
the bytes' value.

The model follows the code where it departs from the usual rainbow-table
design:

- The tree stores the **last reduced plaintext** of each chain, not the
  starting password. `password` is reassigned inside the round loop before
  the insert, so every stored entry satisfies `key == md5(value)`. With zero
  rounds the stored value is the start password itself.
- `crack_password` does a **single exact-match probe** of the tree for the
  queried text. It ignores its `chain_length` argument and does not search
  chain positions or replay chains.
- A zero or negative `chain_length` is accepted and runs no rounds.
- Endpoint collisions are last-write-wins.

Python's `<` on strings is lexicographic by code point. Dafny's `<` on
sequences means "proper prefix", so `LexOrder.Less` defines the order and
proves it a strict total order. The tree is an immutable datatype. Python
mutates nodes in place, but `construct_rainbow_table` holds the only
reference to the root, so the two agree.

## Model

| member | source | states |
|---|---|---|
| `LexOrder.LessIrreflexive` | CU200187_ProgrammingCW1.py:36-41 | no key sorts before itself |
| `LexOrder.LessAsymmetric` | CU200187_ProgrammingCW1.py:36-41 | the `<` and `>` branches of `insert_node` never both apply |
| `LexOrder.LessTransitive` | CU200187_ProgrammingCW1.py:36-39 | string order is transitive, which the search-tree invariant relies on |
| `LexOrder.LessTrichotomy` | CU200187_ProgrammingCW1.py:36-41 | two keys are equal or ordered one way, so the `else` branch is reached only on an equal key |
| `Hex.ParseHex` | CU200187_ProgrammingCW1.py:76 | on ASCII text, `int(s, 16)` yields a value exactly when `s` is a non-empty string of hex digits, and otherwise it is the ValueError case; the other forms `int()` accepts are listed under Left out |
| `Hex.ParseHexEncode` | CU200187_ProgrammingCW1.py:76 | parsing the hex text of a non-empty byte string returns that byte string's big-endian value |
| `RainbowTable.HexEncodeIsDigest` | CU200187_ProgrammingCW1.py:54 | `hexdigest()` of a 16-byte digest is 32 lower-case hex digits and parses back to the digest's value |
| `RainbowTable.DigestParses` | CU200187_ProgrammingCW1.py:94 | the hex parse in `reduce_hash` never fails on a chain digest |
| `Reduction.ChainValue` | CU200187_ProgrammingCW1.py:76 | the chain value is below 2^40 and congruent to digest value plus position modulo 2^40, negative positions included |
| `Reduction.Spell` | CU200187_ProgrammingCW1.py:79-83 | the spelled word has exactly `word_length` characters, each drawn from the alphabet |
| `Reduction.ReduceHash` | CU200187_ProgrammingCW1.py:72-84 | fails with InvalidHex exactly when the digest does not parse, and fails with EmptyAlphabet exactly when it parses but a digit is taken from an empty alphabet; otherwise it returns `word_length` alphabet symbols |
| `Reduction.SpellDigits` | CU200187_ProgrammingCW1.py:79-83 | the remainder-then-floor-divide loop puts digit `i` of the value, `(v / n^i) % n`, at position `i`, and so builds exactly the word `Spell` defines |
| `Reduction.SpellDigit` | CU200187_ProgrammingCW1.py:80-83 | character `i` of the word is the alphabet symbol at index `(v / n^i) % n` |
| `Reduction.SpellModulo` | CU200187_ProgrammingCW1.py:80-83 | only `v mod n^word_length` affects the word |
| `Reduction.ReduceHashDigits` | CU200187_ProgrammingCW1.py:76-83 | for a parsable digest and a non-empty alphabet, `reduce_hash` succeeds and character `i` is digit `i` of `(hexval + iteration) % 2^40`, least significant first |
| `Reduction.ReduceHashCongruent` | CU200187_ProgrammingCW1.py:76-84 | two digest/position pairs whose chain values agree modulo `n^word_length` reduce to the same password |
| `SearchTree.Insert` | CU200187_ProgrammingCW1.py:33-42 | the key set becomes exactly the old keys plus `k`, and the search-tree invariant is preserved |
| `SearchTree.InsertEntries` | CU200187_ProgrammingCW1.py:33-42 | on a search tree, insert updates the stored map at exactly `k`, and an equal key's value is overwritten |
| `SearchTree.InsertFind` | CU200187_ProgrammingCW1.py:33-42 | after an insert, `k` finds the new value and every other key finds what it found before |
| `SearchTree.InsertExistingShape` | CU200187_ProgrammingCW1.py:40-41 | inserting under a key already present leaves every key and link in place |
| `SearchTree.InsertNewSize` | CU200187_ProgrammingCW1.py:34-35 | inserting a fresh key adds exactly one node |
| `SearchTree.Find` | CU200187_ProgrammingCW1.py:121-127 | on any tree, search-ordered or not, the descent reports a hit only for a key the tree holds |
| `SearchTree.FindCorrect` | CU200187_ProgrammingCW1.py:121-127 | on a search tree, the descent finds exactly the stored value for the key, or nothing when the key is absent |
| `SearchTree.CrackPassword` | CU200187_ProgrammingCW1.py:119-128 | the probe loop returns the descent's result whatever the `chain_length`; on a search tree that is the stored value for the target, and None exactly when the target is not a key |
| `SearchTree.BstIffAscending` | CU200187_ProgrammingCW1.py:110-114 | a tree is a search tree exactly when its in-order walk, as `print_tree` takes it, meets the keys in strictly ascending order |
| `SearchTree.BstAscending` | CU200187_ProgrammingCW1.py:110-114 | a search tree's in-order walk is strictly ascending |
| `SearchTree.AscendingBst` | CU200187_ProgrammingCW1.py:110-114 | a strictly ascending in-order walk implies the search-tree invariant |
| `RainbowTable.HashPasswords` | CU200187_ProgrammingCW1.py:53-55 | one digest per password, in the same order, each the MD5 of its password |
| `RainbowTable.Rounds` | CU200187_ProgrammingCW1.py:93 | `range(chain_length)` runs `chain_length` rounds when it is non-negative and none when it is negative |
| `RainbowTable.ReduceStep` | CU200187_ProgrammingCW1.py:94 | `reduce_hash(hash_val, j)` with the default alphabet and length always returns a six-letter lower-case word |
| `RainbowTable.ChainLink` | CU200187_ProgrammingCW1.py:91-95 | at every point of a chain, the digest is the MD5 of the current plaintext |
| `RainbowTable.ChainSplit` | CU200187_ProgrammingCW1.py:93-95 | the round-by-round form of a chain (`Continue`) and its recursive form (`ChainLink`) reach the same endpoint from any intermediate point |
| `RainbowTable.ChainEndsOnWord` | CU200187_ProgrammingCW1.py:92-94 | after zero rounds a chain ends on the start password; after one or more it ends on a six-letter lower-case word |
| `RainbowTable.BuildIndex` | CU200187_ProgrammingCW1.py:88-96 | inserting the chain endpoints one by one always yields a search tree |
| `RainbowTable.ConstructRainbowTable` | CU200187_ProgrammingCW1.py:87-97 | the nested loops build a search tree. Its keys are exactly the chain endpoints of the input passwords. Every entry's key is the MD5 of its value. Its contents are the last-write-wins map of endpoint to last plaintext. With at least one round, every value is a six-letter lower-case word |
| `RainbowTable.TableFacts` | CU200187_ProgrammingCW1.py:88-96 | for any reduction, the built tree stores the reference map; its key set is the endpoint set; every key is the MD5 of its value |
| `RainbowTable.TableWords` | CU200187_ProgrammingCW1.py:93-96 | with at least one round, every stored value is a word of the default length over the lower-case alphabet |
| `RainbowTable.IndexEntries` | CU200187_ProgrammingCW1.py:90-96 | the tree built by successive inserts stores exactly the map built by successive updates |
| `RainbowTable.IndexMapKeys` | CU200187_ProgrammingCW1.py:90-96 | the index's keys are exactly the endpoints inserted |
| `RainbowTable.IndexMapPreserves` | CU200187_ProgrammingCW1.py:90-96 | every stored (key, value) pair is one of the inserted endpoint/plaintext pairs, so any property all chains have holds of every entry |
| `RainbowTable.IndexMapLastWins` | CU200187_ProgrammingCW1.py:90-96 | a chain that no later chain collides with is stored under its endpoint with its own last plaintext |
| `RainbowTable.CrackConstructed` | CU200187_ProgrammingCW1.py:119-128 | on a constructed table, a hit hashes to the queried digest. A miss happens exactly when the digest is no chain's endpoint. The endpoint of a chain no later chain collides with returns that chain's last plaintext |

## Left out

- `generate_passwords` (lines 45-50) draws from Python's global `random`. It has no behaviour worth proving, so the model takes the password list as input.
- `hashlib.md5` is a foreign cryptographic primitive. It becomes the parameter `md5`, which also absorbs the UTF-8 encoding of the password.
- `print_rainbow_table` / `print_tree` (lines 99-116) only format console output. The in-order order of the walk is modelled (`SearchTree.InOrder`); the printing and the "Last password" column's call `reduce_hash(root.key, chain_length - 1)` are not.
- The `__main__` block (lines 130-145) is `input()`/`print` plumbing. Its `last_value` computation at line 144 is never used.
- Multi-position chain search and start-password recovery are not modelled, because the code implements neither.
- Hex.ParseHex: accepts only the ASCII hex digits. Python's `int(s, 16)` also accepts surrounding whitespace (Unicode whitespace included), a sign, a `0x` prefix, single underscores between digits, and non-ASCII Unicode decimal digits such as Arabic-Indic `١`, which it reads as 1. No `hexdigest()` output contains any of them.
- Reduction.ReduceHash: the alphabet is a sequence of single characters. A Python alphabet list whose entries are longer strings would be joined into a longer password. The `alphabet=None` default is modelled by passing `Reduction.Lowercase` explicitly (`RainbowTable.ReduceStep`).
- Reduction.ReduceHash: `word_length` is a natural number. A negative one, for which Python's `range()` runs no iterations and returns the empty string, is not modelled.
- The tree is unbalanced, as in the source, and its running time is not modelled.

# HashTable: a verified model of an open-addressed string table

This project models the `HashTable` class of `hashtable.h`, a fixed-type table that maps domain names to addresses. It is an array of `Table_Item{key, value}` string pairs, and a slot counts as free when its key is the empty string. The model covers:

- the rolling polynomial hash (base 31, modulo 1 000 000 007) and its pass-through `getHash`;
- `insert`: the growth test on the integer quotient `count / size`, then the home slot `hash(key) % size`, then quadratic probing with cumulative steps `index = (index + j*j) % size` for `j = 1 .. size-1`;
- `grow`: a fresh array of `getNextPrime(size)` slots, into which every occupied old slot is placed again;
- `isPrime` (6k±1 trial division) and `getNextPrime` (linear upward scan).

Layout:

- `rolling_hash.dfy` (module `RollingHash`): `HashSpec` is the hash as a function, `PowerSum` is the exact polynomial, and `Hash` is the loop of `hash`, proved equal to `HashSpec`.
- `primes.dfy` (module `Primes`): `Prime` and `IsNextPrime` are the specifications. `IsPrime` and `GetNextPrime` are the loops, proved against them. `PrimeAbove` (Euclid's argument) gives the termination measure of the `getNextPrime` scan.
- `hashtable.dfy` (module `HashTables`):
  - `Item` is the slot datatype.
  - `ProbeIndex` is the probe sequence.
  - `Placement` is insert's probe-and-place step as a function of the slots.
  - `Rehash` is what `grow` builds.
  - `ProbePathsHold` is the placement invariant: every occupied slot lies on the probe path of the key it holds.
  - The class `HashTable` has the fields `count`, `size` and `items: array<Item>`. Its methods update them in place and are proved against those functions. Its `Valid` predicate includes the placement invariant, so the constructor, `insert` and `grow` all keep it.
- `arith.dfy` (module `Arith`): facts about remainders, used by the other modules.

`hash`, `isPrime` and `getNextPrime` are private members that read no field of the table. They are therefore module-level methods here. `getHash`, `insert` and `grow` are methods of the class.

Behaviour of the code that the model keeps as written:

- The code never changes `count`. The constructor sets it to 0 and no defined method touches it.
- The growth test `float capacity = count/size; if (capacity >= .5)` divides two unsigned integers. It therefore fires only when `count >= size`. From a fresh table this never happens, so `size` stays 13.
- Probing adds `j*j` to the previous index, not to the home index. Probe j therefore visits home + 1² + … + j² modulo size.
- When no probed slot is free, `insert` returns the last probed index and writes nothing. It reports no error.
- `find` and `remove` are declared but have no definition.

## Model

| member | source | states |
|---|---|---|
| RollingHash.HashSpec | hashtable.h:54-66 | the hash of a key is below 1 000 000 007, and the hash of the empty key is 0 |
| RollingHash.HashRollingStep | hashtable.h:60-63 | appending character c at position i turns hash h into (h + (c - 'a' + 1) * (31^i mod M)) mod M: the update of `hash_so_far` |
| RollingHash.PowStep | hashtable.h:62 | `p_pow = (p_pow * p) % m` turns 31^i mod M into 31^(i+1) mod M |
| RollingHash.Hash | hashtable.h:54-66 | the loop returns Σᵢ (keyᵢ − 'a' + 1)·31ⁱ mod 1 000 000 007; its invariants say that at the start of iteration i `hash_so_far` is the hash of the first i characters and `p_pow` = 31ⁱ mod 1 000 000 007 |
| Primes.IsPrime | hashtable.h:133-147 | returns true exactly when n is prime: false for n ≤ 1, true for 2 and 3, false for other multiples of 2 or 3, and otherwise the verdict of the 6k±1 loop |
| Primes.NoDivisorInWheel | hashtable.h:140-144 | once 2 and 3 are ruled out, testing i and i+2 with i = 6q+5 rules out every divisor in [i, i+6) |
| Primes.WheelDivisorFound | hashtable.h:142-144 | a divisor i or i+2 found while i*i ≤ n is a proper divisor, so returning false is right |
| Primes.NoSmallDivisorMeansPrime | hashtable.h:142-146 | when the loop stops with i*i > n and no divisor below i, n is prime |
| Primes.PrimeAbove | hashtable.h:157-164 | there is a prime above every n, so the upward scan of `getNextPrime` ends |
| Primes.GetNextPrime | hashtable.h:149-167 | returns 2 for N ≤ 1, and otherwise the smallest prime strictly greater than N |
| Primes.ThirteenIsPrime | hashtable.h:44 | the initial size 13 is prime |
| Primes.NextPrimeAfterThirteen | hashtable.h:118 | the next prime after 13 is 17, so a first growth takes the table from 13 to 17 slots |
| HashTables.Item | hashtable.h:8-15 | a table item is a pair of a key (domain name) and a value (address); a slot is free when its key is empty |
| HashTables.ItemEquals | hashtable.h:12-14 | two items are equal exactly when both keys and both values match |
| HashTables.ProbeIndex | hashtable.h:82-90 | probe 0 is the home slot `hash % size`, probe j adds j*j to the slot of probe j-1, and every probe lands on an index below size |
| HashTables.ProbeIndexCumulative | hashtable.h:87-90 | probe j visits (home + 1² + 2² + … + j²) mod size: the steps accumulate |
| HashTables.SumSquaresClosedForm | hashtable.h:87-90 | 1² + … + j² = j(j+1)(2j+1)/6, the total offset after j probes |
| HashTables.ProbeIndexClosedForm | hashtable.h:87-90 | probe j visits (home + j(j+1)(2j+1)/6) mod size |
| HashTables.FirstFreeProbe | hashtable.h:85-99 | the search for a free slot stops at the first probe whose slot is free: every earlier probe met an occupied slot, and when no probe is free the result is size |
| HashTables.Placement | hashtable.h:82-108 | insert's probe-and-place keeps the number of slots, returns an index below size, and leaves every slot either unchanged or holding the new item |
| HashTables.PlacementAtHome | hashtable.h:105-108 | if the home slot `hash(key) % size` is free, the item is written there and that index is returned |
| HashTables.PlacementAtFirstFree | hashtable.h:85-99 | if probes 0 .. j-1 meet occupied slots and probe j a free one, the item is written at probe j's slot and that index is returned |
| HashTables.PlacementWhenProbesFull | hashtable.h:87-102 | if all size probes meet occupied slots, nothing is written and the last probed index is returned |
| HashTables.PlacementWritesIffFreeProbe | hashtable.h:85-108 | the item is written exactly when some probe meets a free slot, and then into a slot that was free |
| HashTables.PlacementKeepsOtherSlots | hashtable.h:91-98 | no occupied slot is overwritten, not even one with the same key, and every slot other than the returned index is unchanged |
| HashTables.PlacementCount | hashtable.h:85-108 | one insert adds at most one occupied slot and never frees one |
| HashTables.ProbesMissFreeSlotsAtThirteen | hashtable.h:87-102 | with 13 slots and home 0, the probes visit only slots 0, 1, 3, 4, 5, 8, 9, 10 and 12, so insert can drop an item while slots 2, 6, 7 and 11 are free |
| HashTables.EmptySlotsOnProbePaths | hashtable.h:42-46 | a table of empty slots satisfies the placement invariant: every occupied slot lies on the probe path of its own key |
| HashTables.PlacementKeepsProbePaths | hashtable.h:82-108 | insert keeps the placement invariant: it writes only at a probe of the item's own hash, and every other slot keeps its item |
| HashTables.Rehash | hashtable.h:119-127 | the rebuilt table has exactly the new number of slots, and every key in it can be hashed |
| HashTables.RehashTakesOldItems | hashtable.h:122-127 | every occupied slot of the new array holds an item that was in an occupied slot of the old array |
| HashTables.RehashOnProbePaths | hashtable.h:119-127 | after grow every occupied slot lies on the probe path of its own key in the new, larger table |
| HashTables.RehashCount | hashtable.h:122-127 | growth never increases the number of occupied slots |
| HashTables.HashTable.constructor | hashtable.h:42-46 | a new table has size 13, count 0 and 13 slots with empty keys and values |
| HashTables.HashTable.GetHash | hashtable.h:69-71 | returns the hash of the key |
| HashTables.HashTable.ProbeAndPlace | hashtable.h:81-108 | the slots and the returned index after probing are those of `Placement` applied to the old slots |
| HashTables.HashTable.Insert | hashtable.h:73-109 | the table stays valid, so every occupied slot stays on its own key's probe path; `count` is unchanged and the returned index is below size. While count < size the table does not grow: same array and same size, and the result is `Placement` on the old slots. Otherwise size becomes the next prime and the result is `Placement` on the rehashed slots |
| HashTables.HashTable.Grow | hashtable.h:111-131 | size becomes the smallest prime above the old size, the array is new, and its slots are the old occupied items placed again in index order |

## Left out

- `find` and `remove` are declared at hashtable.h:21 and hashtable.h:23 but have no definition, so there is nothing to model.
- The destructor and the `new`/`delete[]` memory management are left out. The model's `Grow` assigns a freshly allocated Dafny array.
- The `float` at hashtable.h:75 only holds the integer quotient `count/size`, so the model tests `count / size >= 1`.
- `HashableKey` restricts keys to characters from 'a' up to 0x7F. Characters below 'a' make the term `item.at(i) - 'a' + 1` negative. C++'s truncating `%` and the conversion to `unsigned int` would then matter, and the model does not capture them. Above 0x7F a Dafny `char` (a Unicode scalar value) and the bytes of a `std::string` no longer correspond one to one, and bytes 0x80 to 0xFF are negative where `char` is signed. Every key stored in the table carries the same restriction.
- Hash: the model assumes a 64-bit `long`. With that, `p_pow * 31` and the sum cannot overflow for the keys above.
- IsPrime: the model uses unbounded integers. It does not model the overflow of `int i*i` for n close to 2^31.
- GetNextPrime: the model does not model the wrap-around of `prime++` past 2^32 - 1.
- ProbeAndPlace: the model does not model the `unsigned int` overflow of `j * j` and `index + j * j`. It could only occur for sizes of 65 536 and more.
- Grow: the C++ code re-inserts through `insert`, which repeats the growth test. The model places each item with the probe-and-place step alone. The repeated test can only fire if `count` reaches `size`, and `count` is never changed.
- `count` and `size` are modelled as `nat` rather than 32-bit unsigned integers.

# Bloom filter for password uniqueness

This project models a small password-uniqueness checker built on a Bloom
filter, and proves properties of that model.

- `BloomFilter` is the filter. It holds a bit array of `size` bits, all clear at the start, and a number of hashes `num_hashes`.
- `add(item)` sets the bit at `hash(item, i) % size` for every seed `i` in `0 .. num_hashes-1`.
- `contains(item)` is true only when all of those bits are set.
- `check_password_uniqueness` walks a list of candidates from left to right and gives each one a status:
  - "Некоректний пароль" (invalid) when it is not a string, or is blank after `strip()`;
  - "вже використаний" (already used) when the filter already reports it;
  - "унікальний" (unique) otherwise, and the password is then added to the filter.
- The result is a dictionary from candidate to status label.
- A non-string candidate that cannot be hashed, such as a list, reaches the dictionary store for invalid candidates. There Python raises `TypeError`. The caller gets the exception, and the filter keeps the bits added by the earlier candidates.

The model has two modules:

- `Bloom` (`bloom_filter.dfy`):
  - specification functions over `seq<bool>`: `Slot` (the index for one seed), `SetSlots` (the bits after an add), `AllSet` (the answer of contains) and `Below` (bits only grow);
  - the lemmas about those functions;
  - the class `BloomFilter`. It holds an `array<bool>` that `Add` updates in place, and its methods are proved against the functions above.
- `PasswordCheck` (`password_check.dfy`):
  - the candidate values (`Value`: a string, or some other object, which may or may not be hashable);
  - the three statuses and their exact labels;
  - Python's `str.strip()`, with the whitespace set of `str.isspace()`;
  - `Process`, a specification of the whole pass, defined on the last candidate so that `Process(.., vs[..i])` is the state after `i` candidates. Its `Outcome` is either the bits and the result map, or the `TypeError` with the bits at the point it was raised;
  - the lemmas about `Process`;
  - the imperative `CheckPasswordUniqueness`. Its loop calls `BloomFilter.Contains` and `BloomFilter.Add` and fills the result map. It returns an `Answer`: the result map, or `UnhashableCandidate` for the `TypeError`.

The seeded hash `mmh3.hash` is a foreign C function. It is passed to the
`BloomFilter` constructor as a deterministic function from `(item, seed)` to
a signed 32-bit integer, and kept in a `const` field. Every property holds for
every such function.

`size`, `numHashes` and `hash` are `const` fields, so no method can change
them.

`add` and `contains` are called with the precondition `size > 0 || numHashes == 0`:
- Python raises `ZeroDivisionError` only when the loop applies `% size` with `size == 0`;
- with zero hashes, any size works;
- the constructor accepts `size == 0`, as the Python constructor does.

## Model

| member | source | states |
|---|---|---|
| `Bloom.Slot` | task_01.py:31 | the index for a seed is in `[0, size)` even when the hash is negative |
| `Bloom.Targets` | task_01.py:30-31 | definition: bit `j` is `hash(item, i) % size` for some seed `i < num_hashes`, so it is one of the indices `add` writes |
| `Bloom.SetSlots` | task_01.py:30-32 | adding keeps the length of the bit array |
| `Bloom.AllSet` | task_01.py:44-48 | definition: the bit at `hash(item, i) % size` is set for every seed `i < num_hashes`, which is the answer of `contains` |
| `Bloom.SetSlotsAt` | task_01.py:30-32 | after add, a bit is set iff it was set before or it is `hash(item, i) % size` for some `i < num_hashes`; every other bit is unchanged |
| `Bloom.SetSlotsGrows` | task_01.py:32 | add never clears a bit: the 1-bits only grow |
| `Bloom.NoFalseNegatives` | task_01.py:30-48 | right after `add(x)`, every slot of `x` is set, so `contains(x)` is true |
| `Bloom.AllSetMonotone` | task_01.py:44-48 | if the bits only grow, an item reported present stays present |
| `Bloom.StaysPresent` | task_01.py:30-48 | once `contains(y)` is true it stays true after `add(x)` for any `x` |
| `Bloom.AddIdempotent` | task_01.py:30-32 | `add(x); add(x)` leaves the same bits as one `add(x)` |
| `Bloom.BloomFilter.constructor` | task_01.py:18-21 | a fresh array of exactly `size` bits, all clear, with the given `size`, `num_hashes` and hash |
| `Bloom.BloomFilter.Add` | task_01.py:30-32 | the new bit array is the old one with the item's slots set, seed by seed; nothing else is modified |
| `Bloom.BloomFilter.Contains` | task_01.py:44-48 | true iff every slot of the item is set; the array is not modified; always true with zero hashes |
| `PasswordCheck.Label` | task_01.py:65-71 | definition: the three status strings "Некоректний пароль", "вже використаний" and "унікальний" |
| `PasswordCheck.Hashable` | task_01.py:65 | definition: a candidate can be a dictionary key when it is a string or a hashable non-string object |
| `PasswordCheck.IsWhitespace` | task_01.py:64 | definition: the characters for which Python's `str.isspace()` holds, which `strip()` removes |
| `PasswordCheck.TrimStart` | task_01.py:64 | definition: drops leading whitespace one character at a time |
| `PasswordCheck.TrimEnd` | task_01.py:64 | definition: drops trailing whitespace one character at a time |
| `PasswordCheck.Strip` | task_01.py:64 | definition: `strip()` is the trailing trim of the leading trim |
| `PasswordCheck.TrimStartIsSuffix` | task_01.py:64 | the leading trim keeps a suffix of the string |
| `PasswordCheck.TrimStartDropsWhitespace` | task_01.py:64 | every character the leading trim drops is whitespace, and what it keeps does not start with whitespace |
| `PasswordCheck.TrimEndIsPrefix` | task_01.py:64 | the trailing trim keeps a prefix of the string |
| `PasswordCheck.TrimEndDropsWhitespace` | task_01.py:64 | every character the trailing trim drops is whitespace, and what it keeps does not end with whitespace |
| `PasswordCheck.StripEmptyIffBlank` | task_01.py:64 | `strip()` gives the empty string exactly when every character is whitespace; a non-empty result starts and ends with a non-whitespace character |
| `PasswordCheck.StripIsSlice` | task_01.py:64 | `strip()` is a contiguous slice `s[a..b]` of the string, and everything outside it is whitespace |
| `PasswordCheck.IsPassword` | task_01.py:64 | definition: a candidate is valid when it is a string whose `strip()` is not empty |
| `PasswordCheck.Classify` | task_01.py:64-71 | definition: invalid when not a valid password, else already used when the filter contains it, else unique |
| `PasswordCheck.Process` | task_01.py:62-74 | the pass keeps the size of the bit array |
| `PasswordCheck.ProcessStep` | task_01.py:63-72 | for one more candidate: after an error nothing changes; an unhashable one raises with the filter as it was; invalid leaves the filter and records the invalid label; already contained leaves the filter and records "already used"; otherwise records "unique", adds it and it is then present; no other key changes |
| `PasswordCheck.ProcessGrows` | task_01.py:63-72 | the whole pass only sets bits, whether or not it raises |
| `PasswordCheck.ProcessRaisesIff` | task_01.py:63-65 | the pass raises exactly when some candidate is unhashable |
| `PasswordCheck.ProcessRaisedStays` | task_01.py:63-65 | once the pass has raised, later candidates change nothing |
| `PasswordCheck.ProcessRaisedAt` | task_01.py:63-72 | the first unhashable candidate raises after every earlier candidate was processed, and the filter keeps the bits they added |
| `PasswordCheck.ProcessKeys` | task_01.py:62-74 | without an error, the result's keys are exactly the input's elements |
| `PasswordCheck.ProcessRemembersAt` | task_01.py:63-72 | without an error, the valid password at any position is reported present by the filter afterwards |
| `PasswordCheck.ProcessRemembers` | task_01.py:63-72 | without an error, every valid password of the input is reported present by the filter afterwards |
| `PasswordCheck.ProcessLastOccurrence` | task_01.py:65-71 | a repeated key's stored status is the one computed at its last occurrence, against the filter state before that occurrence |
| `PasswordCheck.RepeatedPasswordEndsUsed` | task_01.py:65-71 | a valid password that occurs twice ends as "вже використаний" |
| `PasswordCheck.CheckPasswordUniqueness` | task_01.py:51-74 | the final bits and the answer are those of `Process` on the input; it raises exactly when some candidate is unhashable; otherwise the result's keys are the input's elements and every valid password is present afterwards |

## Left out

- The internals of `mmh3.hash`. It is a foreign C extension, so the model takes any deterministic function with signed 32-bit values.
- The packed storage of the `bitarray` library. The bit array is an `array<bool>`.
- `num_hashes` is a natural number. A negative value in Python gives an empty `range`, so it behaves like 0.
- Negative `size` is not modelled. `bitarray` rejects it, and the model uses `nat`.
- Python's cross-type key equality is not modelled. For example, `1 == True` makes them one dictionary key. A non-string candidate is an opaque `NonText(id)`, equal only to itself.
- The insertion order of the result dictionary is not modelled. The result is a `map`.
- The false-positive rate, and any other probabilistic claim. Nothing in the code computes them.
- The `__main__` demo and its printing (task_01.py:77-92). Its expected outcomes depend on concrete MurmurHash3 values.

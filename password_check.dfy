/**
 * Password uniqueness checking on top of a Bloom filter: each candidate, left
 * to right, is classified as invalid, already used or unique, and every
 * unique one is added to the filter. The result maps each candidate to the
 * label of its status; a repeated candidate keeps the label of its last
 * occurrence.
 */
module PasswordCheck {
  import opened Bloom

  /** A candidate as the caller passes it: a string, or some other object,
      which may or may not be usable as a dictionary key. */
  datatype Value = Text(text: string) | NonText(id: nat, hashable: bool)

  /** Whether the candidate can be a key of the result dictionary; strings
      always can. */
  predicate Hashable(v: Value)
  {
    v.Text? || v.hashable
  }

  datatype Status = Invalid | AlreadyUsed | Unique

  /** The status strings the caller reads back. */
  function Label(s: Status): string
  {
    match s
    case Invalid => "Некоректний пароль"
    case AlreadyUsed => "вже використаний"
    case Unique => "унікальний"
  }

  /** The characters Python's `str.strip()` removes when given no argument
      (those for which `str.isspace()` holds). */
  predicate IsWhitespace(c: char)
  {
    var n := c as int;
    (0x09 <= n <= 0x0D) || (0x1C <= n <= 0x20) || n == 0x85 || n == 0xA0 ||
    n == 0x1680 || (0x2000 <= n <= 0x200A) || n == 0x2028 || n == 0x2029 ||
    n == 0x202F || n == 0x205F || n == 0x3000
  }

  ghost predicate IsBlank(s: string)
  {
    forall i :: 0 <= i < |s| ==> IsWhitespace(s[i])
  }

  /** `s` without its leading whitespace. */
  function TrimStart(s: string): string
  {
    if s != [] && IsWhitespace(s[0]) then TrimStart(s[1..]) else s
  }

  /** `s` without its trailing whitespace. */
  function TrimEnd(s: string): string
  {
    if s != [] && IsWhitespace(s[|s| - 1]) then TrimEnd(s[..|s| - 1]) else s
  }

  /** Python's `s.strip()` with no argument. */
  function Strip(s: string): string
  {
    TrimEnd(TrimStart(s))
  }

  /** `TrimStart` keeps a suffix of `s`. */
  lemma {:induction false} TrimStartIsSuffix(s: string)
    ensures |TrimStart(s)| <= |s| && TrimStart(s) == s[|s| - |TrimStart(s)|..]
  {
    if s != [] && IsWhitespace(s[0]) {
      TrimStartIsSuffix(s[1..]);
    }
  }

  /** What `TrimStart` drops is whitespace, and what it keeps does not start
      with whitespace. */
  lemma {:induction false} TrimStartDropsWhitespace(s: string)
    ensures |TrimStart(s)| <= |s|
    ensures forall i :: 0 <= i < |s| - |TrimStart(s)| ==> IsWhitespace(s[i])
    ensures TrimStart(s) != [] ==> !IsWhitespace(TrimStart(s)[0])
  {
    if s != [] && IsWhitespace(s[0]) {
      var t := s[1..];
      TrimStartDropsWhitespace(t);
      forall i | 0 <= i < |s| - |TrimStart(s)| ensures IsWhitespace(s[i]) {
        if i > 0 {
          assert s[i] == t[i - 1];
        }
      }
    }
  }

  /** `TrimEnd` keeps a prefix of `s`. */
  lemma {:induction false} TrimEndIsPrefix(s: string)
    ensures |TrimEnd(s)| <= |s| && TrimEnd(s) == s[..|TrimEnd(s)|]
  {
    if s != [] && IsWhitespace(s[|s| - 1]) {
      TrimEndIsPrefix(s[..|s| - 1]);
    }
  }

  /** What `TrimEnd` drops is whitespace, and what it keeps does not end
      with whitespace. */
  lemma {:induction false} TrimEndDropsWhitespace(s: string)
    ensures |TrimEnd(s)| <= |s|
    ensures forall i :: |TrimEnd(s)| <= i < |s| ==> IsWhitespace(s[i])
    ensures TrimEnd(s) != [] ==> !IsWhitespace(TrimEnd(s)[|TrimEnd(s)| - 1])
  {
    if s != [] && IsWhitespace(s[|s| - 1]) {
      var t := s[..|s| - 1];
      TrimEndDropsWhitespace(t);
      TrimEndIsPrefix(t);
      forall i | |TrimEnd(s)| <= i < |s| ensures IsWhitespace(s[i]) {
        if i < |s| - 1 {
          assert s[i] == t[i];
        }
      }
    }
  }

  /** `s.strip()` is empty exactly when `s` is blank; otherwise it starts and
      ends with a non-whitespace character. */
  lemma StripEmptyIffBlank(s: string)
    ensures Strip(s) == [] <==> IsBlank(s)
    ensures Strip(s) != [] ==> !IsWhitespace(Strip(s)[0]) && !IsWhitespace(Strip(s)[|Strip(s)| - 1])
  {
    var left := TrimStart(s);
    var r := TrimEnd(left);
    TrimStartIsSuffix(s);
    TrimStartDropsWhitespace(s);
    TrimEndIsPrefix(left);
    TrimEndDropsWhitespace(left);
    assert r == [] ==> left == [];
    assert r != [] ==> s[|s| - |left|] == r[0];
  }

  /** `s.strip()` is `s` with only leading and trailing whitespace removed. */
  lemma StripIsSlice(s: string)
    ensures exists a, b :: 0 <= a <= b <= |s| && Strip(s) == s[a..b] &&
              (forall i :: 0 <= i < |s| && (i < a || b <= i) ==> IsWhitespace(s[i]))
  {
    var left := TrimStart(s);
    TrimStartIsSuffix(s);
    TrimStartDropsWhitespace(s);
    TrimEndIsPrefix(left);
    TrimEndDropsWhitespace(left);
    var r := Strip(s);
    var a := |s| - |left|;
    var b := a + |r|;
    assert r == s[a..b] by {
      assert left[..|r|] == s[a..b];
    }
    forall i | 0 <= i < |s| && (i < a || b <= i) ensures IsWhitespace(s[i]) {
      if i >= b {
        assert s[i] == left[i - a];
      }
    }
  }

  /** A usable password: a string that is not blank after trimming. */
  predicate IsPassword(v: Value)
  {
    v.Text? && Strip(v.text) != []
  }

  /** The status of a hashable candidate `v` against filter bits `bits`. */
  function Classify(bits: seq<bool>, h: HashFunction, k: nat, v: Value): Status
    requires |bits| > 0 || k == 0
  {
    if !IsPassword(v) then Invalid
    else if AllSet(bits, h, v.text, k) then AlreadyUsed
    else Unique
  }

  /** The state after a pass: the filter bits and the result map, or, when an
      unhashable candidate was met, the `TypeError` it raises together with
      the filter bits as they were at that point. */
  datatype Outcome = Done(bits: seq<bool>, results: map<Value, string>) | Raised(bits: seq<bool>)

  /** Processing `vs` left to right from filter bits `bits`: defined on the
      last candidate, so that `Process(.., vs[..i])` is the state after `i`
      candidates. A raised error ends the pass. */
  function Process(bits: seq<bool>, h: HashFunction, k: nat, vs: seq<Value>): (r: Outcome)
    requires |bits| > 0 || k == 0
    ensures |r.bits| == |bits|
    decreases |vs|
  {
    if vs == [] then Done(bits, map[])
    else
      var prev := Process(bits, h, k, vs[..|vs| - 1]);
      var v := vs[|vs| - 1];
      if prev.Raised? then prev
      else if !Hashable(v) then Raised(prev.bits)
      else
        var status := Classify(prev.bits, h, k, v);
        Done(if status == Unique then SetSlots(prev.bits, h, v.text, k) else prev.bits,
             prev.results[v := Label(status)])
  }

  /** One more candidate: after an error nothing happens; an unhashable one
      raises with the filter as it was; an invalid or already present one
      leaves the filter as it was; any other is recorded as unique and
      added, after which it is present. Only the candidate's own key changes. */
  lemma ProcessStep(bits: seq<bool>, h: HashFunction, k: nat, vs: seq<Value>, v: Value)
    requires |bits| > 0 || k == 0
    ensures var prev := Process(bits, h, k, vs);
            var next := Process(bits, h, k, vs + [v]);
            && (prev.Raised? ==> next == prev)
            && (prev.Done? && !Hashable(v) ==> next == Raised(prev.bits))
            && (prev.Done? && Hashable(v) ==>
                  && next.Done?
                  && next.results == prev.results[v := next.results[v]]
                  && (!IsPassword(v) ==> next.bits == prev.bits && next.results[v] == Label(Invalid))
                  && (IsPassword(v) && AllSet(prev.bits, h, v.text, k) ==>
                        next.bits == prev.bits && next.results[v] == Label(AlreadyUsed))
                  && (IsPassword(v) && !AllSet(prev.bits, h, v.text, k) ==>
                        next.bits == SetSlots(prev.bits, h, v.text, k) && next.results[v] == Label(Unique) &&
                        AllSet(next.bits, h, v.text, k) && Below(prev.bits, next.bits)))
  {
    var w := vs + [v];
    assert w[..|w| - 1] == vs && w[|w| - 1] == v;
    var prev := Process(bits, h, k, vs);
    if prev.Done? && Hashable(v) {
      var status := Classify(prev.bits, h, k, v);
      assert Process(bits, h, k, w) ==
             Done(if status == Unique then SetSlots(prev.bits, h, v.text, k) else prev.bits,
                  prev.results[v := Label(status)]);
      if IsPassword(v) {
        NoFalseNegatives(prev.bits, h, v.text, k);
        SetSlotsGrows(prev.bits, h, v.text, k);
      }
    }
  }

  /** Proof helper: one more hashable candidate, after a pass without error. */
  lemma ProcessSnoc(bits: seq<bool>, h: HashFunction, k: nat, vs: seq<Value>, v: Value)
    requires |bits| > 0 || k == 0
    requires Process(bits, h, k, vs).Done? && Hashable(v)
    ensures var prev := Process(bits, h, k, vs);
            var status := Classify(prev.bits, h, k, v);
            Process(bits, h, k, vs + [v]) ==
            Done(if status == Unique then SetSlots(prev.bits, h, v.text, k) else prev.bits,
                 prev.results[v := Label(status)])
  {
    assert (vs + [v])[..|vs|] == vs;
  }

  /** Proof helper: one more unhashable candidate, after a pass without error. */
  lemma ProcessSnocRaises(bits: seq<bool>, h: HashFunction, k: nat, vs: seq<Value>, v: Value)
    requires |bits| > 0 || k == 0
    requires Process(bits, h, k, vs).Done? && !Hashable(v)
    ensures Process(bits, h, k, vs + [v]) == Raised(Process(bits, h, k, vs).bits)
  {
    assert (vs + [v])[..|vs|] == vs;
  }

  /** The pass only ever sets bits, whether or not it raises. */
  lemma {:induction false} ProcessGrows(bits: seq<bool>, h: HashFunction, k: nat, vs: seq<Value>)
    requires |bits| > 0 || k == 0
    ensures Below(bits, Process(bits, h, k, vs).bits)
  {
    if vs != [] {
      var init := vs[..|vs| - 1];
      var last := vs[|vs| - 1];
      var prev := Process(bits, h, k, init);
      ProcessGrows(bits, h, k, init);
      assert vs == init + [last];
      ProcessStep(bits, h, k, init, last);
      var cur := Process(bits, h, k, vs);
      if cur.bits != prev.bits {
        SetSlotsGrows(prev.bits, h, last.text, k);
        BelowTransitive(bits, prev.bits, cur.bits);
      }
    }
  }

  /** The pass raises exactly when some candidate is unhashable. */
  lemma {:induction false} ProcessRaisesIff(bits: seq<bool>, h: HashFunction, k: nat, vs: seq<Value>)
    requires |bits| > 0 || k == 0
    ensures Process(bits, h, k, vs).Raised? <==> exists j :: 0 <= j < |vs| && !Hashable(vs[j])
  {
    if vs != [] {
      var init := vs[..|vs| - 1];
      var last := vs[|vs| - 1];
      ProcessRaisesIff(bits, h, k, init);
      assert vs == init + [last];
      ProcessStep(bits, h, k, init, last);
      if exists j :: 0 <= j < |init| && !Hashable(init[j]) {
        var j :| 0 <= j < |init| && !Hashable(init[j]);
        assert vs[j] == init[j];
      }
      if !Hashable(last) {
        assert vs[|init|] == last;
      }
      if exists j :: 0 <= j < |vs| && !Hashable(vs[j]) {
        var j :| 0 <= j < |vs| && !Hashable(vs[j]);
        if j < |init| {
          assert init[j] == vs[j];
        } else {
          assert vs[j] == last;
        }
      }
    }
  }

  /** Once the pass has raised, later candidates change nothing. */
  lemma {:induction false} ProcessRaisedStays(bits: seq<bool>, h: HashFunction, k: nat, vs: seq<Value>, m: nat)
    requires |bits| > 0 || k == 0
    requires m <= |vs| && Process(bits, h, k, vs[..m]).Raised?
    ensures Process(bits, h, k, vs) == Process(bits, h, k, vs[..m])
    decreases |vs| - m
  {
    if m < |vs| {
      var init := vs[..|vs| - 1];
      assert init[..m] == vs[..m];
      ProcessRaisedStays(bits, h, k, init, m);
    } else {
      assert vs[..m] == vs;
    }
  }

  /** The first unhashable candidate raises the error, after every earlier
      candidate was processed: the filter keeps what they added. */
  lemma ProcessRaisedAt(bits: seq<bool>, h: HashFunction, k: nat, vs: seq<Value>, m: nat)
    requires |bits| > 0 || k == 0
    requires m < |vs| && !Hashable(vs[m])
    requires forall j :: 0 <= j < m ==> Hashable(vs[j])
    ensures Process(bits, h, k, vs[..m]).Done?
    ensures Process(bits, h, k, vs) == Raised(Process(bits, h, k, vs[..m]).bits)
  {
    ProcessRaisesIff(bits, h, k, vs[..m]);
    assert vs[..m + 1][..m] == vs[..m] && vs[..m + 1][m] == vs[m];
    ProcessRaisedStays(bits, h, k, vs, m + 1);
  }

  /** Without an error, the result has a key for every candidate and for
      nothing else. */
  lemma {:induction false} ProcessKeys(bits: seq<bool>, h: HashFunction, k: nat, vs: seq<Value>)
    requires |bits| > 0 || k == 0
    ensures Process(bits, h, k, vs).Done? ==>
              forall v :: v in Process(bits, h, k, vs).results <==> v in vs
  {
    if vs != [] {
      var init := vs[..|vs| - 1];
      ProcessKeys(bits, h, k, init);
      assert vs == init + [vs[|vs| - 1]];
    }
  }

  /** Without an error, the valid password at position `j` is present in
      the filter afterwards. */
  lemma {:induction false} ProcessRemembersAt(bits: seq<bool>, h: HashFunction, k: nat, vs: seq<Value>, j: nat)
    requires |bits| > 0 || k == 0
    requires j < |vs| && IsPassword(vs[j]) && Process(bits, h, k, vs).Done?
    ensures AllSet(Process(bits, h, k, vs).bits, h, vs[j].text, k)
  {
    var init := vs[..|vs| - 1];
    var last := vs[|vs| - 1];
    var prev := Process(bits, h, k, init);
    assert vs == init + [last];
    ProcessStep(bits, h, k, init, last);
    if j < |vs| - 1 {
      assert init[j] == vs[j];
      ProcessRemembersAt(bits, h, k, init, j);
      if IsPassword(last) && !AllSet(prev.bits, h, last.text, k) {
        StaysPresent(prev.bits, h, last.text, vs[j].text, k);
      }
    }
  }

  /** Without an error, every valid password of the input is present in the
      filter afterwards. */
  lemma ProcessRemembers(bits: seq<bool>, h: HashFunction, k: nat, vs: seq<Value>)
    requires |bits| > 0 || k == 0
    ensures Process(bits, h, k, vs).Done? ==>
              forall v :: v in vs && IsPassword(v) ==> AllSet(Process(bits, h, k, vs).bits, h, v.text, k)
  {
    forall v | v in vs && IsPassword(v) && Process(bits, h, k, vs).Done?
      ensures AllSet(Process(bits, h, k, vs).bits, h, v.text, k)
    {
      var j :| 0 <= j < |vs| && vs[j] == v;
      ProcessRemembersAt(bits, h, k, vs, j);
    }
  }

  /** Without an error, the stored status of a candidate is the one computed
      at its last occurrence. */
  lemma {:induction false} ProcessLastOccurrence(bits: seq<bool>, h: HashFunction, k: nat, vs: seq<Value>, i: nat)
    requires |bits| > 0 || k == 0
    requires i < |vs| && Process(bits, h, k, vs).Done?
    requires forall j :: i < j < |vs| ==> vs[j] != vs[i]
    ensures var r := Process(bits, h, k, vs).results;
            vs[i] in r && r[vs[i]] == Label(Classify(Process(bits, h, k, vs[..i]).bits, h, k, vs[i]))
  {
    var init := vs[..|vs| - 1];
    if i < |vs| - 1 {
      assert init[..i] == vs[..i];
      ProcessLastOccurrence(bits, h, k, init, i);
    } else {
      assert init == vs[..i];
    }
  }

  /** Without an error, a valid password that occurs twice ends as already used. */
  lemma {:induction false} RepeatedPasswordEndsUsed(bits: seq<bool>, h: HashFunction, k: nat, vs: seq<Value>, i: nat, j: nat)
    requires |bits| > 0 || k == 0
    requires i < j < |vs| && vs[i] == vs[j] && IsPassword(vs[i])
    requires Process(bits, h, k, vs).Done?
    ensures var r := Process(bits, h, k, vs).results;
            vs[i] in r && r[vs[i]] == Label(AlreadyUsed)
  {
    var init := vs[..|vs| - 1];
    var last := vs[|vs| - 1];
    if last == vs[i] {
      assert vs[i] == init[i];
      ProcessRemembersAt(bits, h, k, init, i);
    } else {
      assert j < |vs| - 1;
      assert init[i] == vs[i] && init[j] == vs[j];
      RepeatedPasswordEndsUsed(bits, h, k, init, i, j);
    }
  }

  /** What the caller gets back: the result dictionary, or the `TypeError`
      raised when an unhashable candidate is used as a key. */
  datatype Answer = Statuses(results: map<Value, string>) | UnhashableCandidate

  /** Classifies `passwords` in order against `filter`, adding each unique one. */
  method CheckPasswordUniqueness(filter: BloomFilter, passwords: seq<Value>) returns (answer: Answer)
    requires filter.Valid() && filter.Usable()
    modifies filter.bits
    ensures Process(old(filter.bits[..]), filter.hash, filter.numHashes, passwords) ==
            if answer.Statuses? then Done(filter.bits[..], answer.results) else Raised(filter.bits[..])
    ensures answer.UnhashableCandidate? <==> exists j :: 0 <= j < |passwords| && !Hashable(passwords[j])
    ensures answer.Statuses? ==> forall v :: v in answer.results <==> v in passwords
    ensures answer.Statuses? ==> forall v :: v in passwords && IsPassword(v) ==>
              AllSet(filter.bits[..], filter.hash, v.text, filter.numHashes)
  {
    ghost var start := filter.bits[..];
    var results := map[];
    var i := 0;
    while i < |passwords|
      invariant 0 <= i <= |passwords|
      invariant Process(start, filter.hash, filter.numHashes, passwords[..i]) ==
                Done(filter.bits[..], results)
    {
      var password := passwords[i];
      assert passwords[..i + 1] == passwords[..i] + [password];
      if !Hashable(password) {
        ProcessSnocRaises(start, filter.hash, filter.numHashes, passwords[..i], password);
        ProcessRaisedStays(start, filter.hash, filter.numHashes, passwords, i + 1);
        ProcessRaisesIff(start, filter.hash, filter.numHashes, passwords);
        return UnhashableCandidate;
      }
      ProcessSnoc(start, filter.hash, filter.numHashes, passwords[..i], password);
      if !IsPassword(password) {
        results := results[password := Label(Invalid)];
      } else {
        var present := filter.Contains(password.text);
        if present {
          results := results[password := Label(AlreadyUsed)];
        } else {
          results := results[password := Label(Unique)];
          filter.Add(password.text);
        }
      }
      i := i + 1;
    }
    assert passwords[..i] == passwords;
    ProcessRaisesIff(start, filter.hash, filter.numHashes, passwords);
    ProcessKeys(start, filter.hash, filter.numHashes, passwords);
    ProcessRemembers(start, filter.hash, filter.numHashes, passwords);
    answer := Statuses(results);
  }
}

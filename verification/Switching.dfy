/**
  Discriminated unions at run time: the table of case labels that the compiler writes into the stub,
  and the search with which the run-time library picks an arm, at the sending and at the receiving end.
*/
module Switching {
  import opened Expressions
  import opened Unions
  import opened Utils

  const TWO_16: int := 0x1_0000
  const TWO_64: int := 0x1_0000_0000_0000_0000

  // ----- the table -----

  /** A case label's value, as an `unsigned long`, and its arm. */
  datatype Entry = Entry(value: nat, arm: nat)

  function UnsignedLong(i: int): nat {
    i % TWO_64
  }

  function EntryOf(v: Value, arm: nat): Entry
    requires Number(v).Some?
  {
    Entry(UnsignedLong(Number(v).value), arm)
  }

  /** What is written for a label: the number itself, or, if it is negative, the number plus 2^64. */
  lemma EntryRules(v: Value, arm: nat, x: int)
    requires (v.IntValue? && v.i == x) || (v.CharValue? && v.c == x) || (v.BoolValue? && x == if v.b then 1 else 0)
    ensures Number(v).Some? && EntryOf(v, arm) == Entry(if x < 0 then x + TWO_64 else x, arm)
  {
    NumberRules(v);
  }

  /** Every label has a kind for which the compiler can write a value. */
  ghost predicate Writable(arms: Arms) {
    forall p: Place :: Valid(arms, p) && At(arms, p).Case? ==> Number(At(arms, p).value).Some?
  }

  function ArmEntries(labels: seq<Label>, arm: nat): seq<Entry> {
    if labels == [] then []
    else
      var last := labels[|labels| - 1];
      ArmEntries(labels[..|labels| - 1], arm)
      + if last.Case? && Number(last.value).Some? then [EntryOf(last.value, arm)] else []
  }

  /** The case labels in the order of the source. */
  function Entries(arms: Arms): seq<Entry> {
    if arms == [] then [] else Entries(arms[..|arms| - 1]) + ArmEntries(arms[|arms| - 1], |arms| - 1)
  }

  lemma NextLabel(labels: seq<Label>, arm: nat, k: nat)
    requires k < |labels|
    ensures ArmEntries(labels[..k + 1], arm) == ArmEntries(labels[..k], arm)
      + if labels[k].Case? && Number(labels[k].value).Some? then [EntryOf(labels[k].value, arm)] else []
  {
    assert labels[..k + 1][..k] == labels[..k];
  }

  lemma NextArm(arms: Arms, i: nat)
    requires i < |arms|
    ensures Entries(arms[..i + 1]) == Entries(arms[..i]) + ArmEntries(arms[i], i)
  {
    assert arms[..i + 1][..i] == arms[..i];
  }

  lemma {:induction false} FewerEntries(arms: Arms, i: nat)
    requires i <= |arms|
    ensures |Entries(arms[..i])| <= |Entries(arms)|
    decreases |arms| - i
  {
    if i == |arms| {
      assert arms[..i] == arms;
    } else {
      FewerEntries(arms, i + 1);
      NextArm(arms, i);
    }
  }

  lemma {:induction false} FewerLabels(labels: seq<Label>, arm: nat, k: nat)
    requires k <= |labels|
    ensures |ArmEntries(labels[..k], arm)| <= |ArmEntries(labels, arm)|
    decreases |labels| - k
  {
    if k == |labels| {
      assert labels[..k] == labels;
    } else {
      FewerLabels(labels, arm, k + 1);
      NextLabel(labels, arm, k);
    }
  }

  /** The first pass of IR_gen_union_type_rep. */
  method CountCases(arms: Arms) returns (n: nat)
    requires Writable(arms)
    ensures n == |Entries(arms)|
  {
    n := 0;
    for i := 0 to |arms|
      invariant n == |Entries(arms[..i])|
    {
      for k := 0 to |arms[i]|
        invariant n == |Entries(arms[..i])| + |ArmEntries(arms[i][..k], i)|
      {
        assert At(arms, Place(i, k)) == arms[i][k];
        NextLabel(arms[i], i, k);
        if arms[i][k].Case? {
          n := n + 1;
        }
      }
      assert arms[i][..|arms[i]|] == arms[i];
      NextArm(arms, i);
    }
    assert arms[..|arms|] == arms;
  }

  /** The second pass, for one arm. */
  method GatherArm(cases: array<Entry>, start: nat, labels: seq<Label>, arm: nat) returns (end: nat)
    requires forall k :: 0 <= k < |labels| && labels[k].Case? ==> Number(labels[k].value).Some?
    requires start + |ArmEntries(labels, arm)| <= cases.Length
    modifies cases
    ensures end == start + |ArmEntries(labels, arm)|
    ensures cases[..start] == old(cases[..start]) && cases[start..end] == ArmEntries(labels, arm)
  {
    end := start;
    for k := 0 to |labels|
      invariant end == start + |ArmEntries(labels[..k], arm)| <= cases.Length
      invariant cases[..start] == old(cases[..start]) && cases[start..end] == ArmEntries(labels[..k], arm)
    {
      NextLabel(labels, arm, k);
      FewerLabels(labels, arm, k + 1);
      hide ArmEntries;
      if labels[k].Case? {
        cases[end] := EntryOf(labels[k].value, arm);
        end := end + 1;
      }
    }
    assert labels[..|labels|] == labels;
  }

  /** The second pass fills exactly the array that the first one asked for. */
  method GatherCases(arms: Arms) returns (cases: array<Entry>)
    requires Writable(arms)
    ensures fresh(cases) && cases[..] == Entries(arms)
  {
    var n := CountCases(arms);
    assert Entries(arms[..0]) == [];
    hide Entries, ArmEntries;
    cases := new Entry[n](_ => Entry(0, 0));
    var end := 0;
    for i := 0 to |arms|
      invariant end == |Entries(arms[..i])| <= n && cases[..end] == Entries(arms[..i])
    {
      FewerEntries(arms, i + 1);
      NextArm(arms, i);
      assert forall k :: 0 <= k < |arms[i]| ==> At(arms, Place(i, k)) == arms[i][k];
      var start := end;
      end := GatherArm(cases, start, arms[i], i);
      assert cases[..end] == cases[..start] + cases[start..end];
    }
    assert arms[..|arms|] == arms;
    assert cases[..end] == cases[..];
  }

  /** What sorting may make of the entries: how equal ones are arranged is not known. */
  ghost predicate IsTable(t: seq<Entry>, arms: Arms) {
    && multiset(t) == multiset(Entries(arms))
    && forall i, j :: 0 <= i < j < |t| ==> t[i].value <= t[j].value
  }

  /** An entry for the label at `p`. */
  ghost predicate LabelAt(arms: Arms, p: Place, e: Entry) {
    && Valid(arms, p) && At(arms, p).Case? && Number(At(arms, p).value).Some?
    && e == EntryOf(At(arms, p).value, p.arm)
  }

  lemma {:induction false} ArmEntriesAre(labels: seq<Label>, arm: nat, e: Entry)
    ensures e in ArmEntries(labels, arm) <==>
      exists k :: 0 <= k < |labels| && labels[k].Case? && Number(labels[k].value).Some?
                  && e == EntryOf(labels[k].value, arm)
  {
    if labels != [] {
      var init := labels[..|labels| - 1];
      ArmEntriesAre(init, arm, e);
      assert forall k :: 0 <= k < |init| ==> init[k] == labels[k];
    }
  }

  lemma {:induction false} EntriesAre(arms: Arms, e: Entry)
    ensures e in Entries(arms) <==> exists p :: LabelAt(arms, p, e)
  {
    if arms != [] {
      var n := |arms| - 1;
      var init := arms[..n];
      EntriesAre(init, e);
      ArmEntriesAre(arms[n], n, e);
      if p :| LabelAt(init, p, e) {
        assert LabelAt(arms, p, e);
      }
      if k :| 0 <= k < |arms[n]| && arms[n][k].Case? && Number(arms[n][k].value).Some?
              && e == EntryOf(arms[n][k].value, n) {
        assert LabelAt(arms, Place(n, k), e);
      }
      forall p | LabelAt(arms, p, e)
        ensures e in Entries(arms)
      {
        if p.arm < n {
          assert LabelAt(init, p, e);
        } else {
          assert arms[n][p.index] == At(arms, p);
        }
      }
    }
  }

  /** A table has an entry for each case label and no other. */
  lemma TableHas(t: seq<Entry>, arms: Arms, e: Entry)
    requires IsTable(t, arms)
    ensures e in t <==> exists p :: LabelAt(arms, p, e)
  {
    EntriesAre(arms, e);
    assert e in t <==> e in multiset(t);
    assert e in Entries(arms) <==> e in multiset(Entries(arms));
  }

  // ----- the search -----

  /** An integer as the library reads it, and what is left of it under the mask 0xffff. */
  function Word(i: int): nat {
    i % TWO_32
  }

  function Cut(w: nat): (c: nat)
    ensures c < TWO_16
  {
    w % TWO_16
  }

  /** The stub has the low four bytes of a value, and the search takes the low two of those. */
  function Stored(e: Entry): (c: nat)
    ensures c < TWO_16
  {
    Cut(Word(e.value))
  }

  function Keys(t: seq<Entry>): (keys: seq<nat>)
    ensures |keys| == |t| && forall i :: 0 <= i < |t| ==> keys[i] == Stored(t[i])
  {
    seq(|t|, i requires 0 <= i < |t| => Stored(t[i]))
  }

  /** Binary search, by the keys met, between two places. */
  function Find(keys: seq<nat>, key: nat, low: int, high: int): (r: Option<nat>)
    requires 0 <= low <= high + 1 <= |keys|
    ensures r.Some? ==> low <= r.value <= high && keys[r.value] == key
    decreases high - low + 1
  {
    if low > high then None
    else
      var mid := (low + high) / 2;
      if key > keys[mid] then Find(keys, key, mid + 1, high)
      else if key < keys[mid] then Find(keys, key, low, mid - 1)
      else Some(mid)
  }

  function Search(keys: seq<nat>, key: nat): (r: Option<nat>)
    ensures r.Some? ==> r.value < |keys| && keys[r.value] == key
  {
    Find(keys, key, 0, |keys| - 1)
  }

  /** rpc_ss_find_union_arm_defn */
  method FindUnionArmDefn(t: seq<Entry>, switchValue: nat) returns (r: Option<nat>)
    ensures r == Search(Keys(t), switchValue)
  {
    if |t| == 0 {
      return None;
    }
    ghost var keys := Keys(t);
    var low, high := 0, |t| - 1;
    while low <= high
      invariant 0 <= low <= high + 1 <= |t|
      invariant Find(keys, switchValue, low, high) == Search(keys, switchValue)
      decreases high - low + 1
    {
      var mid := (low + high) / 2;
      var armSwitchValue := Stored(t[mid]);
      if switchValue > armSwitchValue {
        low := mid + 1;
      } else if switchValue < armSwitchValue {
        high := mid - 1;
      } else {
        return Some(mid);
      }
    }
    r := None;
  }

  ghost predicate Ascending(keys: seq<nat>, low: int, high: int)
    requires 0 <= low <= high + 1 <= |keys|
  {
    forall i, j :: low <= i < j <= high ==> keys[i] <= keys[j]
  }

  ghost predicate StrictlyAscending(keys: seq<nat>, low: int, high: int)
    requires 0 <= low <= high + 1 <= |keys|
  {
    forall i, j :: low <= i < j <= high ==> keys[i] < keys[j]
  }

  lemma {:induction false} FindsAll(keys: seq<nat>, key: nat, low: int, high: int)
    requires 0 <= low <= high + 1 <= |keys| && Ascending(keys, low, high)
    ensures Find(keys, key, low, high).Some? <==> exists i :: low <= i <= high && keys[i] == key
    decreases high - low + 1
  {
    if low <= high {
      var mid := (low + high) / 2;
      if key > keys[mid] {
        FindsAll(keys, key, mid + 1, high);
      } else if key < keys[mid] {
        FindsAll(keys, key, low, mid - 1);
      }
    }
  }

  ghost predicate InPlace(keys: seq<nat>, low: int, high: int)
    requires 0 <= low <= high + 1 <= |keys|
  {
    forall i :: low <= i <= high ==> Find(keys, keys[i], low, high) == Some(i)
  }

  /** The middle key parts the others, and each half is again searched so. */
  lemma InHalves(keys: seq<nat>, low: int, high: int, mid: int)
    requires 0 <= low <= high < |keys| && mid == (low + high) / 2
    ensures InPlace(keys, low, high) <==>
      && InPlace(keys, low, mid - 1) && InPlace(keys, mid + 1, high)
      && (forall i :: low <= i < mid ==> keys[i] < keys[mid]) && (forall i :: mid < i <= high ==> keys[mid] < keys[i])
  {
    if InPlace(keys, low, high) {
      forall i | low <= i <= high
        ensures i < mid ==> keys[i] < keys[mid] && Find(keys, keys[i], low, mid - 1) == Some(i)
        ensures mid < i ==> keys[mid] < keys[i] && Find(keys, keys[i], mid + 1, high) == Some(i)
      {
        assert Find(keys, keys[i], low, high) == Some(i);
      }
    }
  }

  /** On any keys at all, the search finds each of them where it stands exactly if they ascend. */
  lemma {:induction false} FoundInPlace(keys: seq<nat>, low: int, high: int)
    requires 0 <= low <= high + 1 <= |keys|
    ensures InPlace(keys, low, high) <==> StrictlyAscending(keys, low, high)
    decreases high - low + 1
  {
    hide InPlace, Find;
    if low <= high {
      var mid := (low + high) / 2;
      FoundInPlace(keys, low, mid - 1);
      FoundInPlace(keys, mid + 1, high);
      InHalves(keys, low, high, mid);
    } else {
      NothingInPlace(keys, low, high);
    }
  }

  lemma NothingInPlace(keys: seq<nat>, low: int, high: int)
    requires 0 <= low == high + 1 <= |keys|
    ensures InPlace(keys, low, high)
  {
  }

  /** Cutting values to 16 bits keeps their order. */
  ghost predicate OrderKept(entries: seq<Entry>) {
    forall e, f :: e in entries && f in entries && e.value < f.value ==> Stored(e) < Stored(f)
  }

  lemma AscendingIffKept(t: seq<Entry>)
    requires forall i, j :: 0 <= i < j < |t| ==> t[i].value < t[j].value
    ensures StrictlyAscending(Keys(t), 0, |t| - 1) <==> OrderKept(t)
  {
    hide Stored;
    var keys := Keys(t);
    if OrderKept(t) {
      forall i, j | 0 <= i < j < |t|
        ensures keys[i] < keys[j]
      {
        assert t[i] in t && t[j] in t;
      }
    }
    if StrictlyAscending(keys, 0, |t| - 1) {
      forall e, f | e in t && f in t && e.value < f.value
        ensures Stored(e) < Stored(f)
      {
        var i :| 0 <= i < |t| && t[i] == e;
        var j :| 0 <= j < |t| && t[j] == f;
        assert i < j && keys[i] < keys[j];
      }
    }
  }

  /** Every label of a table is found at its own place exactly if cutting the labels to 16 bits keeps
      their order. */
  lemma EveryLabelFound(t: seq<Entry>, arms: Arms)
    requires IsTable(t, arms) && forall i, j :: 0 <= i < j < |t| ==> t[i].value != t[j].value
    ensures (forall i :: 0 <= i < |t| ==> Search(Keys(t), Stored(t[i])) == Some(i)) <==> OrderKept(Entries(arms))
  {
    hide Stored, Search, StrictlyAscending, OrderKept, Entries;
    AscendingIffKept(t);
    SameEntries(t, arms);
    SearchedInPlace(t);
  }

  lemma SearchedInPlace(t: seq<Entry>)
    ensures (forall i :: 0 <= i < |t| ==> Search(Keys(t), Stored(t[i])) == Some(i))
      <==> StrictlyAscending(Keys(t), 0, |t| - 1)
  {
    hide Stored, Find, StrictlyAscending;
    FoundInPlace(Keys(t), 0, |t| - 1);
    assert InPlace(Keys(t), 0, |t| - 1) <==> forall i :: 0 <= i < |t| ==> Search(Keys(t), Stored(t[i])) == Some(i);
  }

  lemma SameEntries(t: seq<Entry>, arms: Arms)
    requires IsTable(t, arms)
    ensures OrderKept(t) <==> OrderKept(Entries(arms))
  {
    forall e
      ensures e in Entries(arms) <==> e in t
    {
      TableHas(t, arms, e);
      EntriesAre(arms, e);
    }
  }

  // ----- the two ends -----

  function ArmFound(t: seq<Entry>, key: nat): Option<nat> {
    match Search(Keys(t), key)
    case Some(i) => Some(t[i].arm)
    case None => None
  }

  /** The arm picked for `x` when a union is received, or sent apart from its discriminator. */
  function Received(t: seq<Entry>, x: int): Option<nat> {
    ArmFound(t, Cut(Word(x)))
  }

  /** The arm picked for `x` when an encapsulated union is sent: here the value is not cut. */
  function Sent(t: seq<Entry>, x: int): Option<nat> {
    ArmFound(t, Word(x))
  }

  /** The two ends pick the same arm for a value exactly if it is below 65536, read without a sign, or
      the receiver finds no arm for it. */
  lemma EndsAgree(t: seq<Entry>, x: int)
    ensures Sent(t, x) == Received(t, x) <==> Word(x) < TWO_16 || Received(t, x) == None
    ensures Sent(t, x).Some? ==> Sent(t, x) == Received(t, x)
  {
    if Word(x) >= TWO_16 {
      assert forall i :: 0 <= i < |t| ==> Keys(t)[i] < TWO_16;
    }
  }

  /** How many values an integer type has. */
  function Values(w: Width): int {
    match w
    case Small => 0x100
    case Short => TWO_16
    case Long => TWO_32
    case Hyper => TWO_64
  }

  predicate InRange(i: int, w: Width, signed: bool) {
    if signed then -(Values(w) / 2) <= i < Values(w) / 2 else 0 <= i < Values(w)
  }

  /** The widths are 8, 16, 32 and 64 bits. */
  lemma RangeRules(i: int, signed: bool)
    ensures InRange(i, Small, signed) <==> if signed then -128 <= i <= 127 else 0 <= i <= 255
    ensures InRange(i, Short, signed) <==> if signed then -32768 <= i <= 32767 else 0 <= i <= 65535
    ensures InRange(i, Long, true) <==> Int32(i)
    ensures InRange(i, Long, false) <==> 0 <= i <= 4294967295
    ensures InRange(i, Hyper, true) <==> -9223372036854775808 <= i <= 9223372036854775807
    ensures InRange(i, Hyper, false) <==> 0 <= i <= 18446744073709551615
  {
  }

  /** What a discriminator can hold at run time; a boolean is a byte, and characters have no sign. */
  predicate HeldBy(x: int, d: Discriminator) {
    match d
    case IntegerType(w, signed) => InRange(x, w, signed)
    case EnumType(enumerators) => x in enumerators.Values
    case BooleanType => 0 <= x < 0x100
    case CharacterType => 0 <= x < 0x100
    case OtherType => false
  }

  /** A discriminator that 16 bits can hold; enumerations without errors are. */
  predicate Narrow(d: Discriminator) {
    && (d.IntegerType? ==> d.width.Small? || d.width.Short?)
    && (d.EnumType? ==> forall name :: name in d.enumerators ==> InRange(d.enumerators[name], Short, true))
  }

  /** The number a label is kept as is a value of the discriminator. */
  predicate Fits(l: Label, d: Discriminator) {
    l.Case? ==> Number(l.value).Some? && HeldBy(Number(l.value).value, d)
  }

  predicate Signed(d: Discriminator) {
    (d.IntegerType? && d.signed) || d.EnumType?
  }

  /** Within 16 bits no value is changed but by its sign. */
  lemma BitsOf(x: int)
    requires -0x8000 <= x < TWO_16
    ensures UnsignedLong(x) == if x < 0 then x + TWO_64 else x
    ensures Word(x) == if x < 0 then x + TWO_32 else x
    ensures Word(UnsignedLong(x)) == Word(x)
    ensures Cut(Word(x)) == if x < 0 then x + TWO_16 else x
  {
    CutTwice(x);
    if x < 0 {
      CutNegative(x);
    }
  }

  lemma CutNegative(x: int)
    requires -TWO_16 <= x < 0
    ensures Cut(Word(x)) == x + TWO_16
  {
    var rest := x + TWO_16;
    assert x % TWO_32 == x + TWO_32 == 0xFFFF * TWO_16 + rest;
  }

  /** Taking the low four bytes of eight changes nothing for an `int`. */
  lemma CutTwice(i: int)
    requires -TWO_31 <= i < TWO_32
    ensures UnsignedLong(i) == if i < 0 then i + TWO_64 else i
    ensures Word(i) == if i < 0 then i + TWO_32 else i
    ensures Word(UnsignedLong(i)) == Word(i)
  {
    if i < 0 {
      var rest := i + TWO_32;
      assert i % TWO_64 == i + TWO_64 == 0xFFFF_FFFF * TWO_32 + rest;
    }
  }

  /** So nothing is lost, and the order of the table is that of its keys. */
  lemma Faithful(x: int, y: int, signed: bool)
    requires InRange(x, Short, signed) && InRange(y, Short, signed)
    ensures Cut(Word(UnsignedLong(x))) == Cut(Word(x))
    ensures Cut(Word(x)) == Cut(Word(y)) <==> x == y
    ensures UnsignedLong(x) <= UnsignedLong(y) <==> Cut(Word(x)) <= Cut(Word(y))
    ensures Word(x) < TWO_16 <==> x >= 0
  {
    hide UnsignedLong, Word, Cut;
    BitsOf(x);
    BitsOf(y);
  }

  lemma HeldInBand(x: int, d: Discriminator)
    requires HeldBy(x, d) && Narrow(d)
    ensures InRange(x, Short, Signed(d))
  {
  }

  /** Tables of labels that a narrow discriminator holds have ascending keys. */
  lemma NarrowAscends(t: seq<Entry>, arms: Arms, d: Discriminator)
    requires IsTable(t, arms) && Narrow(d) && forall p: Place :: Valid(arms, p) ==> Fits(At(arms, p), d)
    ensures Ascending(Keys(t), 0, |t| - 1)
  {
    forall i, j | 0 <= i < j < |t|
      ensures Keys(t)[i] <= Keys(t)[j]
    {
      var x, y := LabelOf(t, arms, d, i), LabelOf(t, arms, d, j);
      HeldInBand(x, d);
      HeldInBand(y, d);
      Faithful(x, y, Signed(d));
      Faithful(y, x, Signed(d));
    }
  }

  /** The number of the label that an entry is for. */
  ghost function LabelOf(t: seq<Entry>, arms: Arms, d: Discriminator, i: nat): (x: int)
    requires IsTable(t, arms) && i < |t| && forall p: Place :: Valid(arms, p) ==> Fits(At(arms, p), d)
    ensures HeldBy(x, d) && t[i].value == UnsignedLong(x) && ArmLabelled(arms, t[i].arm, x)
  {
    TableHas(t, arms, t[i]);
    var p :| LabelAt(arms, p, t[i]);
    assert Fits(At(arms, p), d) && Labels(arms[p.arm][p.index], Number(At(arms, p).value).value);
    Number(At(arms, p).value).value
  }

  /** What the receiver picks has the value for a label, ... */
  lemma FoundIsLabelled(t: seq<Entry>, arms: Arms, d: Discriminator, x: int)
    requires IsTable(t, arms) && Narrow(d) && HeldBy(x, d)
    requires forall p: Place :: Valid(arms, p) ==> Fits(At(arms, p), d)
    ensures Received(t, x).Some? ==> ArmLabelled(arms, Received(t, x).value, x)
  {
    hide IsTable, ArmLabelled, Word, Cut, UnsignedLong;
    if Received(t, x).Some? {
      var y := LabelOf(t, arms, d, Search(Keys(t), Cut(Word(x))).value);
      HeldInBand(x, d);
      HeldInBand(y, d);
      Faithful(y, x, Signed(d));
    }
  }

  /** ... and where there is such a label it picks something. */
  lemma LabelledIsFound(t: seq<Entry>, arms: Arms, d: Discriminator, x: int, arm: nat)
    requires IsTable(t, arms) && Narrow(d) && HeldBy(x, d) && ArmLabelled(arms, arm, x)
    requires forall p: Place :: Valid(arms, p) ==> Fits(At(arms, p), d)
    ensures Received(t, x).Some?
  {
    hide IsTable, Find, Word, Cut, UnsignedLong;
    var keys, key := Keys(t), Cut(Word(x));
    HeldInBand(x, d);
    Faithful(x, x, Signed(d));
    NarrowAscends(t, arms, d);
    FindsAll(keys, key, 0, |t| - 1);
    var k :| 0 <= k < |arms[arm]| && Labels(arms[arm][k], x);
    var e := Entry(UnsignedLong(x), arm);
    assert LabelAt(arms, Place(arm, k), e);
    TableHas(t, arms, e);
    var i :| 0 <= i < |t| && t[i] == e;
    assert keys[i] == key;
  }

  /** For a discriminator of 16 bits and labels that it can hold: whatever value arrives, the receiver
      picks an arm exactly if it has that label, and the sender of an encapsulated union does exactly
      if, besides, the value is not negative. */
  lemma NarrowUnion(t: seq<Entry>, arms: Arms, d: Discriminator, x: int, arm: nat)
    requires Accepted(arms, d) && IsTable(t, arms) && Narrow(d) && HeldBy(x, d)
    requires forall p: Place :: Valid(arms, p) ==> Fits(At(arms, p), d)
    ensures Received(t, x) == Some(arm) <==> ArmLabelled(arms, arm, x)
    ensures Sent(t, x) == Some(arm) <==> ArmLabelled(arms, arm, x) && x >= 0
  {
    FoundIsLabelled(t, arms, d, x);
    if ArmLabelled(arms, arm, x) {
      LabelledIsFound(t, arms, d, x, arm);
    }
    CleanUnionIsDeterministic(arms, d);
    EndsAgree(t, x);
    HeldInBand(x, d);
    Faithful(x, x, Signed(d));
    hide IsTable, Received, Accepted, ArmLabelled, Word, HeldBy;
  }

  // ----- labels that fit badly -----

  /** The table of a union with one label. */
  function Alone(v: Value): seq<Entry>
    requires Number(v).Some?
  {
    [EntryOf(v, 0)]
  }

  ghost predicate Selectable(v: Value, d: Discriminator)
    requires Number(v).Some?
  {
    exists x :: HeldBy(x, d) && Received(Alone(v), x) == Some(0)
  }

  ghost predicate Sendable(v: Value, d: Discriminator)
    requires Number(v).Some?
  {
    exists x :: HeldBy(x, d) && Sent(Alone(v), x) == Some(0)
  }

  /** Some value of the discriminator ends in these 16 bits. */
  predicate EndsSo(low: nat, d: Discriminator) {
    match d
    case IntegerType(Small, true) => low < 0x80 || TWO_16 - 0x80 <= low < TWO_16
    case IntegerType(Small, false) => low < 0x100
    case IntegerType(_, _) => low < TWO_16
    case EnumType(enumerators) => exists name :: name in enumerators && Cut(Word(enumerators[name])) == low
    case BooleanType => low < 0x100
    case CharacterType => low < 0x100
    case OtherType => false
  }

  lemma OneLabel(v: Value, key: nat)
    requires Number(v).Some?
    ensures ArmFound(Alone(v), key) == Some(0) <==> Stored(Alone(v)[0]) == key
  {
    hide Stored;
    var keys := Keys(Alone(v));
    assert keys[0] == Stored(Alone(v)[0]);
    assert Find(keys, key, 1, 0) == None && Find(keys, key, 0, -1) == None;
  }

  /** The label's own last 16 bits, as the search sees them. */
  lemma StoredBits(v: Value)
    requires Number(v).Some?
    ensures Stored(EntryOf(v, 0)) == Cut(Word(Number(v).value))
  {
    CutTwice(Number(v).value);
  }

  lemma EndsOf(x: int, d: Discriminator)
    requires HeldBy(x, d) && !DiscriminatorError(d)
    ensures EndsSo(Cut(Word(x)), d)
  {
    if -0x8000 <= x < TWO_16 {
      BitsOf(x);
    }
    if d.EnumType? {
      var name :| name in d.enumerators && d.enumerators[name] == x;
    }
  }

  ghost function ValueEnding(low: nat, d: Discriminator): (x: int)
    requires EndsSo(low, d) && !DiscriminatorError(d)
    ensures HeldBy(x, d) && Cut(Word(x)) == low
  {
    if d.EnumType? then
      var name :| name in d.enumerators && Cut(Word(d.enumerators[name])) == low;
      d.enumerators[name]
    else
      var x := if d.IntegerType? && d.signed && !HeldBy(low, d) then low - TWO_16 else low;
      BitsOf(x);
      x
  }

  /** The label check goes by kind alone.  A label that it passes is picked for some value of the
      discriminator exactly if the discriminator has a value that ends in the label's 16 bits. */
  lemma SelectableIff(v: Value, d: Discriminator)
    requires CheckLabel(Case(v), d) == NoError && !DiscriminatorError(d)
    ensures Number(v).Some? && (Selectable(v, d) <==> EndsSo(Cut(Word(Number(v).value)), d))
  {
    hide Word, Cut, EndsSo;
    var low := Cut(Word(Number(v).value));
    StoredBits(v);
    if Selectable(v, d) {
      var x :| HeldBy(x, d) && Received(Alone(v), x) == Some(0);
      OneLabel(v, Cut(Word(x)));
      EndsOf(x, d);
    }
    if EndsSo(low, d) {
      var x := ValueEnding(low, d);
      OneLabel(v, Cut(Word(x)));
    }
  }

  /** For the sender of an encapsulated union the label's 16 bits must themselves be such a value. */
  lemma SendableIff(v: Value, d: Discriminator)
    requires CheckLabel(Case(v), d) == NoError && !DiscriminatorError(d)
    ensures Number(v).Some? && (Sendable(v, d) <==> HeldBy(Cut(Word(Number(v).value)), d))
  {
    var low := Cut(Word(Number(v).value));
    StoredBits(v);
    if Sendable(v, d) {
      var x :| HeldBy(x, d) && Sent(Alone(v), x) == Some(0);
      OneLabel(v, Word(x));
      WordBelow(x, low);
    }
    if HeldBy(low, d) {
      OneLabel(v, Word(low));
    }
  }

  lemma WordBelow(x: int, low: nat)
    requires -TWO_31 <= x < TWO_32 && Word(x) == low < TWO_16
    ensures x == low
  {
  }

  /** On either side of the condition: -1 for `unsigned long` and 65535 for `short` are picked, by 0xFFFFFFFF
      and by -1; '\377' for `char` is picked by nothing. */
  lemma EitherSide()
    ensures Received(Alone(IntValue(-1, false, 0)), 0xFFFF_FFFF) == Some(0)
    ensures Received(Alone(IntValue(65535, false, 0)), -1) == Some(0)
    ensures !Selectable(CharValue(-1), CharacterType) && !Sendable(CharValue(-1), CharacterType)
  {
    BitsOf(-1);
    StoredBits(IntValue(-1, false, 0));
    OneLabel(IntValue(-1, false, 0), 0xFFFF);
    StoredBits(IntValue(65535, false, 0));
    OneLabel(IntValue(65535, false, 0), 0xFFFF);
    SelectableIff(CharValue(-1), CharacterType);
    SendableIff(CharValue(-1), CharacterType);
  }

  /** A union of one label that passes the label check. */
  lemma OneLabelAccepted(v: Value, d: Discriminator)
    requires CheckLabel(Case(v), d) == NoError && !DiscriminatorError(d)
    ensures Accepted([[Case(v)]], d) && IsTable(Alone(v), [[Case(v)]])
  {
    var arms := [[Case(v)]];
    assert [Case(v)][..0] == [] && arms[..0] == [];
    assert ArmEntries([Case(v)], 0) == [EntryOf(v, 0)];
    assert Entries(arms) == Entries(arms[..0]) + ArmEntries(arms[0], 0) == Alone(v);
  }

  /** `union switch (small s) { case 1000: ... }` is accepted, and no `small` picks its arm. */
  lemma ArmOutOfReach(arms: Arms, v: Value, d: Discriminator)
    requires v == IntValue(1000, false, 0) && arms == [[Case(v)]] && d == IntegerType(Small, true)
    ensures Accepted(arms, d) && !Selectable(v, d) && !Sendable(v, d)
  {
    hide Selectable, Sendable;
    OneLabelAccepted(v, d);
    SelectableIff(v, d);
    SendableIff(v, d);
  }

  // ----- labels that disturb each other -----

  lemma TwoEntries(v: Value, w: Value)
    requires Number(v).Some? && Number(w).Some?
    ensures Entries([[Case(v)], [Case(w)]]) == [EntryOf(v, 0), EntryOf(w, 1)]
  {
    var arms := [[Case(v)], [Case(w)]];
    NextLabel([Case(v)], 0, 0);
    NextLabel([Case(w)], 1, 0);
    NextArm(arms, 0);
    NextArm(arms, 1);
    assert [Case(v)][..1] == [Case(v)] && [Case(w)][..1] == [Case(w)] && arms[..2] == arms && arms[..0] == [];
  }

  /** The table of a union with two labels of different values. */
  lemma TwoLabels(t: seq<Entry>, arms: Arms, v: Value, w: Value)
    requires arms == [[Case(v)], [Case(w)]] && IsTable(t, arms) && Number(v).Some? && Number(w).Some?
    requires EntryOf(v, 0).value < EntryOf(w, 1).value
    ensures t == [EntryOf(v, 0), EntryOf(w, 1)]
  {
    hide Entries, UnsignedLong, Number;
    var e, f := EntryOf(v, 0), EntryOf(w, 1);
    TwoEntries(v, w);
    assert |t| == |multiset(t)| == |multiset([e, f])| == 2;
    assert t == [t[0], t[1]];
    assert t[0] in multiset(t) && t[1] in multiset(t) && e in multiset(t) && f in multiset(t);
  }

  /** `union switch (long s) { case 1: ... case 65536: ... }` is accepted, and the second arm is never
      picked: cut to 16 bits the keys are 1 and 0, and the search goes the wrong way. */
  lemma LabelLost(t: seq<Entry>, arms: Arms, x: int)
    requires arms == [[Case(IntValue(1, false, 0))], [Case(IntValue(65536, false, 0))]] && IsTable(t, arms)
    ensures Accepted(arms, IntegerType(Long, true))
    ensures Received(t, x) != Some(1) && Sent(t, x) != Some(1)
  {
    TwoLabels(t, arms, arms[0][0].value, arms[1][0].value);
    assert Keys(t) == [1, 0];
    EndsAgree(t, x);
  }

  /** `case 1` and `case 65537` are accepted in different arms, and the same one is picked for both values. */
  lemma LabelsShared(t: seq<Entry>, arms: Arms)
    requires arms == [[Case(IntValue(1, false, 0))], [Case(IntValue(65537, false, 0))]] && IsTable(t, arms)
    ensures Accepted(arms, IntegerType(Long, true))
    ensures Received(t, 1) == Received(t, 65537) == Some(0) && Sent(t, 65537) == None
  {
    TwoLabels(t, arms, arms[0][0].value, arms[1][0].value);
    assert Keys(t) == [1, 1];
    EndsAgree(t, 65537);
  }

  /** `union switch (short s) { case -1: ... }`, encapsulated: -1 can be received and not sent. */
  lemma NegativeNotSent(v: Value, d: Discriminator)
    requires v == IntValue(-1, false, 0) && d == IntegerType(Short, true)
    ensures Accepted([[Case(v)]], d) && Received(Alone(v), -1) == Some(0) && !Sendable(v, d)
  {
    OneLabelAccepted(v, d);
    BitsOf(-1);
    StoredBits(v);
    OneLabel(v, 0xFFFF);
    SendableIff(v, d);
  }
}

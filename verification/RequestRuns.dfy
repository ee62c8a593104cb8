/** The header table over whole runs of calls. */
module RequestRuns {
  import opened CText
  import opened HeaderTable
  import opened Request

  /** The set_header calls since the table was last emptied, in order. */
  function LiveSets(ops: seq<Op>): seq<Field> {
    if ops == [] then []
    else
      var earlier := LiveSets(ops[..|ops| - 1]);
      match ops[|ops| - 1]
      case Init(verb, _) => if ValidMethod(verb) then [] else earlier
      case SetHeader(key, value) => earlier + [Field(key, value)]
      case SetBody(_, _) => earlier
      case Free => []
  }

  /** The keys in order of their first appearance. */
  function Distinct(sets: seq<Field>): (keys: seq<string>)
    ensures forall i, j | 0 <= i < j < |keys| :: keys[i] != keys[j]
    ensures forall k: string :: k in keys <==> exists i | 0 <= i < |sets| :: sets[i].key == k
  {
    if sets == [] then []
    else
      var earlier := Distinct(sets[..|sets| - 1]);
      var key := sets[|sets| - 1].key;
      if key in earlier then earlier else earlier + [key]
  }

  /** The value set last for a key. */
  function Last(sets: seq<Field>, key: string): string {
    if sets == [] then ""
    else if sets[|sets| - 1].key == key then sets[|sets| - 1].value
    else Last(sets[..|sets| - 1], key)
  }

  /** An insertion-ordered map with room for 32 keys: the first 32 distinct keys, each with its last value. */
  function OrderedMap(sets: seq<Field>): (fs: seq<Field>) {
    var keys := Distinct(sets);
    seq(if |keys| <= MAX_HEADERS then |keys| else MAX_HEADERS,
        i requires 0 <= i < |keys| => Kept(keys[i], Last(sets, keys[i])))
  }

  /** The distinct keys the table has room for. */
  function LiveKeys(sets: seq<Field>): seq<string> {
    Distinct(sets)[..if |Distinct(sets)| <= MAX_HEADERS then |Distinct(sets)| else MAX_HEADERS]
  }

  /**
    A key the table cannot mistake: one of at most 62 characters; one of 63 that is not the cut of a longer key set
    before it; or a longer one that is not set already.
   */
  predicate SafeKey(keys: seq<string>, key: string) {
    if |key| < KEY_SIZE - 1 then true
    else if |key| == KEY_SIZE - 1 then
      forall j | 0 <= j < |keys| && |keys[j]| >= KEY_SIZE && Cut(keys[j], KEY_SIZE) == key :: key in keys[..j]
    else key !in keys
  }

  /** The row a search compares equal to the key is the key's own, and is found if the key is set. */
  predicate FindsOwn(sets: seq<Field>, key: string) {
    var fs, keys := OrderedMap(sets), LiveKeys(sets);
    if HasKey(fs, key) then keys[FindKey(fs, key)] == key else key !in keys
  }

  lemma LiveRows(sets: seq<Field>)
    ensures |LiveKeys(sets)| == |OrderedMap(sets)|
    ensures forall i | 0 <= i < |OrderedMap(sets)| ::
      OrderedMap(sets)[i] == Kept(LiveKeys(sets)[i], Last(sets, LiveKeys(sets)[i]))
    ensures forall i, j | 0 <= i < j < |LiveKeys(sets)| :: LiveKeys(sets)[i] != LiveKeys(sets)[j]
  {}

  lemma CutKey(k: string)
    ensures |Cut(k, KEY_SIZE)| == if |k| >= KEY_SIZE then KEY_SIZE - 1 else |k|
  {}

  /** The condition on the key alone says exactly when the search finds the key's own row. */
  lemma SafeFindsOwn(sets: seq<Field>, key: string)
    ensures SafeKey(LiveKeys(sets), key) <==> FindsOwn(sets, key)
  {
    var fs, keys := OrderedMap(sets), LiveKeys(sets);
    LiveRows(sets);
    assert forall j | 0 <= j < |fs| :: fs[j].key == Cut(keys[j], KEY_SIZE);
    if HasKey(fs, key) {
      var i := FindKey(fs, key);
      CutKey(keys[i]);
      if |keys[i]| >= KEY_SIZE {
        assert keys[i] != key;
        FirstRowIsLonger(fs, keys, key, i);
      } else {
        assert keys[i] == key;
        OwnRowFirst(fs, keys, key, i);
      }
    } else if key in keys {
      var j :| 0 <= j < |keys| && keys[j] == key;
      assert fs[j].key == Cut(key, KEY_SIZE) != key;
    } else {
      forall j | 0 <= j < |keys| ensures Cut(keys[j], KEY_SIZE) != key {
        assert fs[j].key == Cut(keys[j], KEY_SIZE);
      }
    }
  }

  lemma FirstRowIsLonger(fs: seq<Field>, keys: seq<string>, key: string, i: nat)
    requires |fs| == |keys| && forall j | 0 <= j < |fs| :: fs[j].key == Cut(keys[j], KEY_SIZE)
    requires i == FindKey(fs, key) < |fs| && |keys[i]| >= KEY_SIZE
    ensures !SafeKey(keys, key)
  {
    assert Cut(keys[i], KEY_SIZE) == key;
    forall j | 0 <= j < i ensures keys[..i][j] != key {
      assert fs[j].key == Cut(keys[j], KEY_SIZE);
    }
  }

  lemma OwnRowFirst(fs: seq<Field>, keys: seq<string>, key: string, i: nat)
    requires |fs| == |keys| && forall j | 0 <= j < |fs| :: fs[j].key == Cut(keys[j], KEY_SIZE)
    requires i == FindKey(fs, key) < |fs| && keys[i] == key && |key| < KEY_SIZE
    ensures SafeKey(keys, key)
  {
    forall j | 0 <= j < |keys| && |keys[j]| >= KEY_SIZE && Cut(keys[j], KEY_SIZE) == key ensures key in keys[..j] {
      assert fs[j].key == key;
      assert i < j && keys[..j][i] == key;
    }
  }

  // ---------------------------------------------------------------- one call

  /** A call whose key finds its own row, or none, is one more call on the map. */
  lemma SafeSetIsMapUpdate(sets: seq<Field>, key: string, value: string)
    requires FindsOwn(sets, key)
    ensures SetField(OrderedMap(sets), key, value) == OrderedMap(sets + [Field(key, value)])
  {
    var keys := Distinct(sets);
    var fs := OrderedMap(sets);
    var sets' := sets + [Field(key, value)];
    assert sets'[..|sets|] == sets;
    assert forall k: string | k != key :: Last(sets', k) == Last(sets, k);
    LiveRows(sets);
    assert forall i | 0 <= i < |fs| :: keys[i] == LiveKeys(sets)[i];
    assert SetField(fs, key, value) == OrderedMap(sets');
  }

  /** A value that tells the table from the map when the key finds another's row, or misses its own. */
  lemma UnsafeSetDiffers(sets: seq<Field>, key: string) returns (value: string)
    requires !FindsOwn(sets, key)
    ensures SetField(OrderedMap(sets), key, value) != OrderedMap(sets + [Field(key, value)])
  {
    var fs, keys := OrderedMap(sets), LiveKeys(sets);
    LiveRows(sets);
    if HasKey(fs, key) {
      var i := FindKey(fs, key);
      value := Other(fs[i].value);
      MapRowKept(sets, key, value, i);
    } else {
      var j :| 0 <= j < |keys| && keys[j] == key;
      value := Other(fs[j].value);
      MapRowSet(sets, key, value, j);
    }
  }

  function Other(s: string): (t: string)
    ensures t != s && |t| < 2
  {
    if s == "" then "x" else ""
  }

  /** The map leaves the rows of other keys alone. */
  lemma MapRowKept(sets: seq<Field>, key: string, value: string, i: nat)
    requires i < |OrderedMap(sets)| && LiveKeys(sets)[i] != key
    ensures i < |OrderedMap(sets + [Field(key, value)])|
    ensures OrderedMap(sets + [Field(key, value)])[i] == OrderedMap(sets)[i]
  {
    assert (sets + [Field(key, value)])[..|sets|] == sets;
  }

  /** The map gives a live key its new value. */
  lemma MapRowSet(sets: seq<Field>, key: string, value: string, j: nat)
    requires j < |OrderedMap(sets)| && LiveKeys(sets)[j] == key
    ensures j < |OrderedMap(sets + [Field(key, value)])|
    ensures OrderedMap(sets + [Field(key, value)])[j] == Kept(key, value)
  {
    assert (sets + [Field(key, value)])[..|sets|] == sets;
    assert Distinct(sets)[j] == key && key in Distinct(sets);
  }

  /**
    Whatever the value, one call on the table is one more call on the map, exactly when the key is one the table cannot
    mistake.
   */
  lemma {:induction false} SetFieldIsMapUpdate(sets: seq<Field>, key: string)
    ensures (forall value :: SetField(OrderedMap(sets), key, value) == OrderedMap(sets + [Field(key, value)]))
            <==> SafeKey(LiveKeys(sets), key)
  {
    SafeFindsOwn(sets, key);
    if FindsOwn(sets, key) {
      forall value ensures SetField(OrderedMap(sets), key, value) == OrderedMap(sets + [Field(key, value)]) {
        SafeSetIsMapUpdate(sets, key, value);
      }
    } else {
      var value := UnsafeSetDiffers(sets, key);
    }
  }

  // ---------------------------------------------------------------- whole runs

  /** Every header call of the run uses a key the table cannot mistake at that point. */
  ghost predicate SafeRun(ops: seq<Op>) {
    forall n | 0 <= n < |ops| && ops[n].SetHeader? :: SafeKey(LiveKeys(LiveSets(ops[..n])), ops[n].key)
  }

  /** After every call of the run, the table is the ordered map of the calls since it was last emptied. */
  ghost predicate MapThroughout(start: RequestValue, ops: seq<Op>) {
    forall n | 0 <= n <= |ops| :: Run(start, ops[..n]).fields == OrderedMap(LiveSets(ops[..n]))
  }

  /** The same calls up to the header values. */
  ghost predicate SameKeys(ops: seq<Op>, ops': seq<Op>) {
    && |ops| == |ops'|
    && forall n | 0 <= n < |ops| ::
         if ops[n].SetHeader? then ops'[n].SetHeader? && ops'[n].key == ops[n].key else ops'[n] == ops[n]
  }

  /** The table of a safe run is the ordered map of its calls. */
  lemma {:induction false} SafeRunIsMap(verb: string, url: string, ops: seq<Op>)
    requires SafeRun(ops)
    ensures Run(Initial(verb, url), ops).fields == OrderedMap(LiveSets(ops))
  {
    if ops != [] {
      var init, op := ops[..|ops| - 1], ops[|ops| - 1];
      assert forall n | 0 <= n < |init| :: init[..n] == ops[..n];
      SafeRunIsMap(verb, url, init);
      if op.SetHeader? {
        SafeFindsOwn(LiveSets(init), op.key);
        SafeSetIsMapUpdate(LiveSets(init), op.key, op.value);
      }
    }
  }

  /** Which keys are live does not depend on the values. */
  lemma {:induction false} KeysOnly(ops: seq<Op>, ops': seq<Op>)
    requires SameKeys(ops, ops')
    ensures Distinct(LiveSets(ops)) == Distinct(LiveSets(ops'))
  {
    if ops != [] {
      var init, init' := ops[..|ops| - 1], ops'[..|ops| - 1];
      KeysOnly(init, init');
      var op, op' := ops[|ops| - 1], ops'[|ops| - 1];
      if op.SetHeader? {
        DistinctStep(LiveSets(init), Field(op.key, op.value));
        DistinctStep(LiveSets(init'), Field(op'.key, op'.value));
      }
    }
  }

  lemma DistinctStep(sets: seq<Field>, f: Field)
    ensures Distinct(sets + [f]) == if f.key in Distinct(sets) then Distinct(sets) else Distinct(sets) + [f.key]
  {
    assert (sets + [f])[..|sets|] == sets;
  }

  lemma SafeWhateverValues(ops: seq<Op>, ops': seq<Op>)
    requires SameKeys(ops, ops') && SafeRun(ops)
    ensures SafeRun(ops')
  {
    forall n | 0 <= n < |ops'| && ops'[n].SetHeader? ensures SafeKey(LiveKeys(LiveSets(ops'[..n])), ops'[n].key) {
      assert SameKeys(ops[..n], ops'[..n]);
      KeysOnly(ops[..n], ops'[..n]);
    }
  }

  lemma {:induction false} SafeThroughout(verb: string, url: string, ops: seq<Op>)
    requires SafeRun(ops)
    ensures MapThroughout(Initial(verb, url), ops)
  {
    forall n | 0 <= n <= |ops|
      ensures Run(Initial(verb, url), ops[..n]).fields == OrderedMap(LiveSets(ops[..n]))
    {
      assert forall m | 0 <= m < n :: ops[..n][..m] == ops[..m];
      SafeRunIsMap(verb, url, ops[..n]);
    }
  }

  /** A run that is not safe departs from the map for some values of its headers. */
  lemma {:induction false} UnsafeDeparts(verb: string, url: string, ops: seq<Op>, n: nat) returns (ops': seq<Op>)
    requires n < |ops| && ops[n].SetHeader? && !SafeKey(LiveKeys(LiveSets(ops[..n])), ops[n].key)
    ensures SameKeys(ops, ops') && !MapThroughout(Initial(verb, url), ops')
  {
    var sets, start := LiveSets(ops[..n]), Initial(verb, url);
    SafeFindsOwn(sets, ops[n].key);
    var value := UnsafeSetDiffers(sets, ops[n].key);
    ops' := ops[n := SetHeader(ops[n].key, value)];
    assert ops'[..n] == ops[..n] && ops'[..n + 1][..n] == ops[..n];
    var v := Run(start, ops[..n]);
    if v.fields == OrderedMap(sets) {
      assert Run(start, ops'[..n + 1]) == Step(v, ops'[n]);
      assert LiveSets(ops'[..n + 1]) == sets + [Field(ops[n].key, value)];
      assert Run(start, ops'[..n + 1]).fields == SetField(v.fields, ops[n].key, value);
    }
  }

  /**
    Over whole runs: whatever values its headers are given, the table is at every point the ordered map of the calls
    since it was last emptied, exactly when every header call uses a key the table cannot mistake.
   */
  lemma {:induction false} TableIsOrderedMap(verb: string, url: string, ops: seq<Op>)
    ensures SafeRun(ops) <==> forall ops' | SameKeys(ops, ops') :: MapThroughout(Initial(verb, url), ops')
  {
    if SafeRun(ops) {
      forall ops' | SameKeys(ops, ops') ensures MapThroughout(Initial(verb, url), ops') {
        SafeWhateverValues(ops, ops');
        SafeThroughout(verb, url, ops');
      }
    } else {
      var n :| 0 <= n < |ops| && ops[n].SetHeader? && !SafeKey(LiveKeys(LiveSets(ops[..n])), ops[n].key);
      var ops' := UnsafeDeparts(verb, url, ops, n);
    }
  }

  predicate ShortKeys(ops: seq<Op>) {
    forall i | 0 <= i < |ops| && ops[i].SetHeader? :: |ops[i].key| < KEY_SIZE
  }

  /** Runs whose keys fit their rows are safe. */
  lemma {:induction false} ShortRunIsSafe(ops: seq<Op>)
    requires ShortKeys(ops)
    ensures SafeRun(ops)
  {
    forall n | 0 <= n < |ops| && ops[n].SetHeader? ensures SafeKey(LiveKeys(LiveSets(ops[..n])), ops[n].key) {
      var sets := LiveSets(ops[..n]);
      LiveSetsShort(ops[..n]);
      forall j | 0 <= j < |LiveKeys(sets)| ensures |LiveKeys(sets)[j]| < KEY_SIZE {
        assert LiveKeys(sets)[j] in Distinct(sets);
      }
    }
  }

  lemma {:induction false} LiveSetsShort(ops: seq<Op>)
    requires ShortKeys(ops)
    ensures forall i | 0 <= i < |LiveSets(ops)| :: |LiveSets(ops)[i].key| < KEY_SIZE
  {
    if ops != [] {
      LiveSetsShort(ops[..|ops| - 1]);
    }
  }

  /**
    What a header call does to the table, row by row: the first row with the key takes the value, or a new row is
    added while there are fewer than 32, or nothing happens; a row holds 63 characters of a key and 255 of a value.
   */
  lemma CallEffect(fs: seq<Field>, key: string, value: string)
    ensures forall i | 0 <= i < |fs| && fs[i].key == key && (forall j | 0 <= j < i :: fs[j].key != key) ::
              SetField(fs, key, value) == fs[i := Field(key, Prefix(value, 255))]
    ensures (forall i | 0 <= i < |fs| :: fs[i].key != key) ==>
              SetField(fs, key, value)
              == if |fs| < 32 then fs + [Field(Prefix(key, 63), Prefix(value, 255))] else fs
  {
    var at := FindKey(fs, key);
    forall i | 0 <= i < |fs| && fs[i].key == key && (forall j | 0 <= j < i :: fs[j].key != key)
      ensures SetField(fs, key, value) == fs[i := Field(key, Prefix(value, 255))]
    {
      assert i == at;
    }
  }

  /** The methods and content types a request may have. */
  predicate Listed(verb: string) {
    || verb == "get" || verb == "post" || verb == "put" || verb == "delete" || verb == "patch" || verb == "head"
  }

  predicate ListedType(t: string) {
    || t == "text/plain" || t == "application/json" || t == "application/xml" || t == "application/octet-stream"
  }

  /** When a call returns 0. */
  lemma AcceptedMeans(v: RequestValue, op: Op)
    ensures Accepted(v, op) <==>
              match op
              case Init(verb, _) => Listed(verb)
              case SetHeader(key, _) => (exists i | 0 <= i < |v.fields| :: v.fields[i].key == key) || |v.fields| < 32
              case SetBody(_, t) => t.Some? ==> ListedType(t.value)
              case Free => true
  {
    if op.SetHeader? && HasKey(v.fields, op.key) {
      assert v.fields[FindKey(v.fields, op.key)].key == op.key;
    }
  }

  /** Over safe runs: a header call is accepted exactly for a key set before, or while fewer than 32 are set. */
  lemma {:induction false} SafeRunAccepts(verb: string, url: string, ops: seq<Op>, key: string, value: string)
    requires SafeRun(ops + [SetHeader(key, value)])
    ensures var keys := Distinct(LiveSets(ops));
            Accepted(Run(Initial(verb, url), ops), SetHeader(key, value)) <==>
            |keys| < 32 || key in keys[..32]
  {
    var all, sets := ops + [SetHeader(key, value)], LiveSets(ops);
    assert all[..|ops|] == ops && all[|ops|] == SetHeader(key, value);
    forall n | 0 <= n < |ops| && ops[n].SetHeader? ensures SafeKey(LiveKeys(LiveSets(ops[..n])), ops[n].key) {
      assert all[n] == ops[n] && all[..n] == ops[..n];
    }
    SafeRunIsMap(verb, url, ops);
    SafeFindsOwn(sets, key);
    LiveRows(sets);
    var fs, keys := OrderedMap(sets), LiveKeys(sets);
    if HasKey(fs, key) {
      assert keys[FindKey(fs, key)] == key;
    }
  }

  // ---------------------------------------------------------------- what else a run leaves

  /** The method of the last accepted init. */
  function VerbSet(first: string, ops: seq<Op>): string {
    if ops == [] then first
    else
      match ops[|ops| - 1]
      case Init(verb, _) => if Listed(verb) then verb else VerbSet(first, ops[..|ops| - 1])
      case _ => VerbSet(first, ops[..|ops| - 1])
  }

  /** Its URL. */
  function UrlSet(first: string, ops: seq<Op>): string {
    if ops == [] then first
    else
      match ops[|ops| - 1]
      case Init(verb, url) => if Listed(verb) then url else UrlSet(first, ops[..|ops| - 1])
      case _ => UrlSet(first, ops[..|ops| - 1])
  }

  /** The type of the last accepted set_body that names one, since the last accepted init. */
  function TypeSet(ops: seq<Op>): string {
    if ops == [] then "text/plain"
    else
      match ops[|ops| - 1]
      case Init(verb, _) => if Listed(verb) then "text/plain" else TypeSet(ops[..|ops| - 1])
      case SetBody(_, Some(t)) => if ListedType(t) then t else TypeSet(ops[..|ops| - 1])
      case _ => TypeSet(ops[..|ops| - 1])
  }

  /** The body of the last accepted set_body since the last accepted init or free. */
  function BodySet(ops: seq<Op>): seq<char> {
    if ops == [] then []
    else
      match ops[|ops| - 1]
      case Init(verb, _) => if Listed(verb) then [] else BodySet(ops[..|ops| - 1])
      case SetBody(octets, t) => if t.Some? && !ListedType(t.value) then BodySet(ops[..|ops| - 1]) else octets
      case Free => []
      case SetHeader(_, _) => BodySet(ops[..|ops| - 1])
  }

  /** Over every run: method, URL, content type and body are those of the last calls that set them. */
  lemma {:induction false} RunLeaves(verb: string, url: string, ops: seq<Op>)
    requires Listed(verb)
    ensures var v := Run(Initial(verb, url), ops);
            && v.verb == VerbSet(verb, ops) && Listed(v.verb) && v.url == Prefix(UrlSet(url, ops), 511)
            && v.contentType == TypeSet(ops) && ListedType(v.contentType) && v.octets == BodySet(ops)
  {
    if ops != [] {
      RunLeaves(verb, url, ops[..|ops| - 1]);
      AcceptedMeans(Run(Initial(verb, url), ops[..|ops| - 1]), ops[|ops| - 1]);
    }
  }

  // ---------------------------------------------------------------- runs with keys of any length

  predicate DistinctKeys(fs: seq<Field>) {
    forall i, j | 0 <= i < j < |fs| :: fs[i].key != fs[j].key
  }

  /**
    The argument is compared with stored keys that may have been cut, so a call keeps the keys distinct exactly
    when it finds its key, is refused, or its key is new even after the cut.
   */
  lemma SetFieldKeepsDistinct(fs: seq<Field>, key: string, value: string)
    requires DistinctKeys(fs)
    ensures DistinctKeys(SetField(fs, key, value))
      <==> HasKey(fs, key) || |fs| >= MAX_HEADERS || !HasKey(fs, Cut(key, KEY_SIZE))
  {
    var fs' := SetField(fs, key, value);
    if !HasKey(fs, key) && |fs| < MAX_HEADERS && HasKey(fs, Cut(key, KEY_SIZE)) {
      var i := FindKey(fs, Cut(key, KEY_SIZE));
      assert fs'[i].key == fs'[|fs|].key;
    }
  }

  /** A key one octet too long is stored twice. */
  lemma LongKeyStoredTwice(url: string)
    ensures var key := seq(64, _ => 'k');
            var fs := Run(Initial("get", url), [SetHeader(key, "a"), SetHeader(key, "b")]).fields;
            |fs| == 2 && fs[0].key == fs[1].key && fs[0].value == "a"
  {
    var key := seq(64, _ => 'k');
    var ops := [SetHeader(key, "a"), SetHeader(key, "b")];
    var v := Initial("get", url);
    assert ops[..1] == [SetHeader(key, "a")] && ops[..1][..0] == [];
    assert Run(v, ops[..1][..0]) == v;
    assert Run(v, ops[..1]) == Step(v, ops[0]);
  }

  /** A key that is the cut of one set before overwrites that one's value, adds nothing and is accepted. */
  lemma CutKeyOverwrites(url: string)
    ensures var long, short := seq(64, _ => 'k'), seq(63, _ => 'k');
            var v := Run(Initial("get", url), [SetHeader(long, "a")]);
            && Accepted(v, SetHeader(short, "b"))
            && Step(v, SetHeader(short, "b")).fields == [Field(short, "b")]
            && OrderedMap([Field(long, "a"), Field(short, "b")]) != [Field(short, "b")]
  {
    var long, short := seq(64, _ => 'k'), seq(63, _ => 'k');
    var ops := [SetHeader(long, "a")];
    assert ops[..0] == [] && Run(Initial("get", url), ops[..0]) == Initial("get", url);
    assert Cut(long, KEY_SIZE) == short;
    var sets := [Field(long, "a"), Field(short, "b")];
    assert sets[..1] == [Field(long, "a")] && sets[..1][..0] == [];
    assert Distinct(sets[..1][..0]) == [] && Distinct(sets[..1]) == [long] && Distinct(sets) == [long, short];
    assert |OrderedMap(sets)| == 2;
  }

  /** What every run keeps, whatever the keys: no text below the cut length is stored twice, and all fit. */
  ghost predicate TableInvariant(v: RequestValue) {
    && |v.fields| <= 32
    && ValidMethod(v.verb) && |v.url| < 512 && ValidContentType(v.contentType)
    && (forall i | 0 <= i < |v.fields| :: |v.fields[i].key| < 64 && |v.fields[i].value| < 256)
    && (forall i, j | 0 <= i < j < |v.fields| && v.fields[i].key == v.fields[j].key ::
          |v.fields[i].key| == 63)
  }

  lemma StepKeepsInvariant(v: RequestValue, op: Op)
    requires TableInvariant(v)
    ensures TableInvariant(Step(v, op))
  {}

  lemma {:induction false} RunKeepsInvariant(verb: string, url: string, ops: seq<Op>)
    requires ValidMethod(verb)
    ensures TableInvariant(Run(Initial(verb, url), ops))
  {
    if ops != [] {
      RunKeepsInvariant(verb, url, ops[..|ops| - 1]);
      StepKeepsInvariant(Run(Initial(verb, url), ops[..|ops| - 1]), ops[|ops| - 1]);
    }
  }
}

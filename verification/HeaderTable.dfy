/** The fixed header table of requests and responses: 32 rows, each a 64-octet key and a 256-octet value. */
module HeaderTable {
  import opened CText

  datatype Field = Field(key: string, value: string)

  const KEY_SIZE := 64
  const VALUE_SIZE := 256
  const ROW_SIZE := 320
  const MAX_HEADERS := 32
  const TABLE_SIZE := 10240

  type Memory = mem: seq<char> | |mem| == TABLE_SIZE witness seq(TABLE_SIZE, _ => '\0')

  function KeyBytes(mem: Memory, i: nat): seq<char>
    requires i < MAX_HEADERS
  {
    mem[ROW_SIZE * i..ROW_SIZE * i + KEY_SIZE]
  }

  function ValueBytes(mem: Memory, i: nat): seq<char>
    requires i < MAX_HEADERS
  {
    mem[ROW_SIZE * i + KEY_SIZE..ROW_SIZE * (i + 1)]
  }

  function Row(mem: Memory, i: nat): Field
    requires i < MAX_HEADERS
  {
    Field(CStr(KeyBytes(mem, i)), CStr(ValueBytes(mem, i)))
  }

  /** The live rows, from the first. */
  function Rows(mem: Memory, count: nat): (fs: seq<Field>)
    requires count <= MAX_HEADERS
    ensures |fs| == count
  {
    seq(count, i requires 0 <= i < count => Row(mem, i))
  }

  /** Where the structure keeps its rows. */
  lemma RowLayout(mem: Memory, i: nat)
    requires i < 32
    ensures Row(mem, i) == Field(CStr(mem[320 * i..320 * i + 64]), CStr(mem[320 * i + 64..320 * i + 320]))
  {
    assert ROW_SIZE * (i + 1) == 320 * i + 320;
  }

  lemma RowsAre(mem: Memory, count: nat)
    requires count <= MAX_HEADERS
    ensures forall i | 0 <= i < count :: Rows(mem, count)[i] == Row(mem, i)
  {}

  /** Every live key and value ends with a NUL inside its own octets. */
  ghost predicate RowsTerminated(mem: Memory, count: nat)
    requires count <= MAX_HEADERS
  {
    forall i | 0 <= i < count :: '\0' in KeyBytes(mem, i) && '\0' in ValueBytes(mem, i)
  }

  lemma RowSame(mem: Memory, mem': Memory, i: nat)
    requires i < MAX_HEADERS
    requires forall k | ROW_SIZE * i <= k < ROW_SIZE * (i + 1) :: mem'[k] == mem[k]
    ensures KeyBytes(mem', i) == KeyBytes(mem, i) && ValueBytes(mem', i) == ValueBytes(mem, i)
  {
    assert forall k | 0 <= k < KEY_SIZE :: KeyBytes(mem', i)[k] == mem'[ROW_SIZE * i + k];
    assert forall k | 0 <= k < VALUE_SIZE :: ValueBytes(mem', i)[k] == mem'[ROW_SIZE * i + KEY_SIZE + k];
  }

  // ---------------------------------------------------------------- the table as a list of fields

  /** The index of the first field with this key, compared octet by octet, or the number of fields. */
  function FindKey(fs: seq<Field>, key: string): (i: nat)
    ensures i <= |fs| && (i < |fs| ==> fs[i].key == key)
    ensures forall j | 0 <= j < i :: fs[j].key != key
  {
    if fs == [] || fs[0].key == key then 0
    else
      var i := FindKey(fs[1..], key);
      assert forall j | 0 < j < i + 1 :: fs[j] == fs[1..][j - 1];
      i + 1
  }

  predicate HasKey(fs: seq<Field>, key: string) {
    FindKey(fs, key) < |fs|
  }

  /** The field as its row can hold it. */
  function Kept(key: string, value: string): Field {
    Field(Cut(key, KEY_SIZE), Cut(value, VALUE_SIZE))
  }

  /** A new key is refused by a full table. */
  predicate Refused(fs: seq<Field>, key: string) {
    !HasKey(fs, key) && |fs| >= MAX_HEADERS
  }

  /** Update or append. */
  function SetField(fs: seq<Field>, key: string, value: string): seq<Field> {
    if HasKey(fs, key) then
      var i := FindKey(fs, key);
      fs[i := Field(fs[i].key, Cut(value, VALUE_SIZE))]
    else if Refused(fs, key) then fs
    else fs + [Kept(key, value)]
  }

  /** The value of the first field with this key. */
  function Lookup(fs: seq<Field>, key: string): Option<string> {
    if HasKey(fs, key) then Some(fs[FindKey(fs, key)].value) else None
  }

  // ---------------------------------------------------------------- writing rows

  ghost predicate OthersSame(mem: Memory, mem': Memory, i: nat) {
    forall j | 0 <= j < MAX_HEADERS && j != i ::
      KeyBytes(mem', j) == KeyBytes(mem, j) && ValueBytes(mem', j) == ValueBytes(mem, j)
  }

  method PutKeyBytes(table: array<char>, i: nat, key: string)
    requires table.Length == TABLE_SIZE && i < MAX_HEADERS && '\0' !in key
    modifies table
    ensures OthersSame(old(table[..]), table[..], i)
    ensures CStr(KeyBytes(table[..], i)) == Cut(key, KEY_SIZE) && '\0' in KeyBytes(table[..], i)
  {
    ghost var before: Memory := table[..];
    SafeCopy(table, ROW_SIZE * i, Some(key), KEY_SIZE);
    CStrStored(before, ROW_SIZE * i, key, KEY_SIZE);
    forall j | 0 <= j < MAX_HEADERS && j != i
      ensures KeyBytes(table[..], j) == KeyBytes(before, j) && ValueBytes(table[..], j) == ValueBytes(before, j)
    {
      RowSame(before, table[..], j);
    }
  }

  method PutValueBytes(table: array<char>, i: nat, value: string)
    requires table.Length == TABLE_SIZE && i < MAX_HEADERS && '\0' !in value
    modifies table
    ensures OthersSame(old(table[..]), table[..], i) && KeyBytes(table[..], i) == old(KeyBytes(table[..], i))
    ensures CStr(ValueBytes(table[..], i)) == Cut(value, VALUE_SIZE) && '\0' in ValueBytes(table[..], i)
  {
    ghost var before: Memory := table[..];
    SafeCopy(table, ROW_SIZE * i + KEY_SIZE, Some(value), VALUE_SIZE);
    CStrStored(before, ROW_SIZE * i + KEY_SIZE, value, VALUE_SIZE);
    assert KeyBytes(table[..], i) == KeyBytes(before, i);
    forall j | 0 <= j < MAX_HEADERS && j != i
      ensures KeyBytes(table[..], j) == KeyBytes(before, j) && ValueBytes(table[..], j) == ValueBytes(before, j)
    {
      RowSame(before, table[..], j);
    }
  }

  method PutValue(table: array<char>, count: nat, i: nat, value: string)
    requires table.Length == TABLE_SIZE && i < count <= MAX_HEADERS && '\0' !in value
    requires RowsTerminated(table[..], count)
    modifies table
    ensures RowsTerminated(table[..], count)
    ensures var fs := old(Rows(table[..], count));
            Rows(table[..], count) == fs[i := Field(fs[i].key, Cut(value, VALUE_SIZE))]
  {
    RowsAre(table[..], count);
    PutValueBytes(table, i, value);
    RowsAre(table[..], count);
  }

  method PutRow(table: array<char>, count: nat, key: string, value: string)
    requires table.Length == TABLE_SIZE && count < MAX_HEADERS && '\0' !in key && '\0' !in value
    requires RowsTerminated(table[..], count)
    modifies table
    ensures RowsTerminated(table[..], count + 1)
    ensures Rows(table[..], count + 1) == old(Rows(table[..], count)) + [Kept(key, value)]
  {
    RowsAre(table[..], count);
    PutKeyBytes(table, count, key);
    PutValueBytes(table, count, value);
    RowsAre(table[..], count);
  }

  /** The search both the request and the response run over their rows. */
  method FindRow(table: array<char>, count: nat, key: string) returns (i: nat)
    requires table.Length == TABLE_SIZE && count <= MAX_HEADERS
    ensures i == FindKey(Rows(table[..], count), key)
  {
    ghost var fs := Rows(table[..], count);
    RowsAre(table[..], count);
    i := 0;
    while i < count
      invariant i <= count
      invariant forall j | 0 <= j < i :: fs[j].key != key
    {
      assert fs[i] == Row(table[..], i);
      if CStr(KeyBytes(table[..], i)) == key {
        return;
      }
      i := i + 1;
    }
  }
}

/** Packed structures: little-endian fields of given widths, one after the other. */
module Layout {
  import opened Bits
  import opened ByteSeq

  datatype Field = Field(value: nat, width: nat)

  /** The bytes of a packed structure. */
  function Laid(fields: seq<Field>): seq<Byte> {
    if fields == [] then [] else Little(fields[0].value, fields[0].width) + Laid(fields[1..])
  }

  /** How many bytes the fields before field `k` take up. */
  function Start(fields: seq<Field>, k: nat): nat
    requires k <= |fields|
  {
    if k == 0 then 0 else Start(fields, k - 1) + fields[k - 1].width
  }

  lemma {:induction false} StartRest(fields: seq<Field>, k: nat)
    requires 0 < k <= |fields|
    ensures Start(fields, k) == fields[0].width + Start(fields[1..], k - 1)
    decreases k
  {
    if k > 1 {
      StartRest(fields, k - 1);
    }
  }

  lemma {:induction false} LaidLength(fields: seq<Field>)
    ensures |Laid(fields)| == Start(fields, |fields|)
  {
    if fields != [] {
      LaidLength(fields[1..]);
      StartRest(fields, |fields|);
    }
  }

  lemma {:induction false} StartMono(fields: seq<Field>, j: nat, k: nat)
    requires j <= k <= |fields|
    ensures Start(fields, j) <= Start(fields, k)
    decreases k
  {
    if j < k {
      StartMono(fields, j, k - 1);
    }
  }

  /** Field `k` is found after the fields before it. */
  lemma {:induction false} FieldAt(fields: seq<Field>, k: nat)
    requires k < |fields|
    ensures Start(fields, k) + fields[k].width <= |Laid(fields)|
    ensures Laid(fields)[Start(fields, k)..Start(fields, k) + fields[k].width] == Little(fields[k].value, fields[k].width)
    decreases k
  {
    LaidLength(fields);
    StartMono(fields, k + 1, |fields|);
    if k > 0 {
      FieldAt(fields[1..], k - 1);
      StartRest(fields, k);
      PartOfTail(Little(fields[0].value, fields[0].width), Laid(fields[1..]), Start(fields[1..], k - 1), fields[k].width);
    }
  }

  lemma {:induction false} PartOfTail(a: seq<Byte>, b: seq<Byte>, at: nat, n: nat)
    requires at + n <= |b|
    ensures (a + b)[|a| + at..|a| + at + n] == b[at..at + n]
  {
  }

  /** The structure lies at `at`. */
  ghost predicate LiesAt(data: seq<Byte>, at: nat, fields: seq<Field>) {
    LiesIn(data, at, Laid(fields))
  }

  /** Its field `k`, which starts at `start`, is then read there. */
  lemma {:induction false} FieldLies(data: seq<Byte>, at: nat, fields: seq<Field>, k: nat)
    requires LiesAt(data, at, fields) && k < |fields|
    ensures var start := at + Start(fields, k);
            start + fields[k].width <= |data| && data[start..start + fields[k].width] == Little(fields[k].value, fields[k].width)
  {
    FieldAt(fields, k);
    SubSlice(data, at, at + |Laid(fields)|, Start(fields, k), fields[k].width);
  }

  lemma {:induction false} Reads16(data: seq<Byte>, at: nat, fields: seq<Field>, k: nat, start: nat)
    requires LiesAt(data, at, fields) && k < |fields| && start == at + Start(fields, k) && fields[k].width == 2
    ensures start + 2 <= |data| && Le16(data, start) == fields[k].value % 0x1_0000
  {
    FieldLies(data, at, fields, k);
    Le16Reads(data, start, fields[k].value);
  }

  lemma {:induction false} Reads32(data: seq<Byte>, at: nat, fields: seq<Field>, k: nat, start: nat)
    requires LiesAt(data, at, fields) && k < |fields| && start == at + Start(fields, k) && fields[k].width == 4
    ensures start + 4 <= |data| && Le32(data, start) == fields[k].value % 0x1_0000_0000
  {
    FieldLies(data, at, fields, k);
    Le32Reads(data, start, fields[k].value);
  }

  lemma {:induction false} Reads64(data: seq<Byte>, at: nat, fields: seq<Field>, k: nat, start: nat)
    requires LiesAt(data, at, fields) && k < |fields| && start == at + Start(fields, k) && fields[k].width == 8 && fields[k].value < TWO64
    ensures start + 8 <= |data| && Le64(data, start) == fields[k].value
  {
    FieldLies(data, at, fields, k);
    Le64Reads(data, start, fields[k].value);
  }
}

/** Values shared by the storage engine and the operators: Java's 32-bit
    integers, field values, tuples, page identifiers and the exceptions the
    source throws, modelled as error values. */
module Types {

  datatype Option<+T> = None | Some(value: T)

  /** The Java exceptions the modelled code throws or lets escape. */
  datatype Error =
    | NoSuchElement        // java.util.NoSuchElementException
    | IllegalArgument      // java.lang.IllegalArgumentException
    | DbError              // simpledb.common.DbException
    | TransactionAborted   // simpledb.transaction.TransactionAbortedException
    | NullPointer          // java.lang.NullPointerException
    | ClassCast            // java.lang.ClassCastException
    | IndexOutOfBounds     // java.lang.ArrayIndexOutOfBoundsException
    | IO                   // java.io.IOException

  datatype Result<+T> = Ok(value: T) | Err(error: Error)

  datatype Outcome = Done | Fail(error: Error)

  // ---------------------------------------------------------------- Java int

  const MIN_INT: int := -0x8000_0000
  const MAX_INT: int := 0x7fff_ffff
  const TWO_32: int := 0x1_0000_0000

  newtype int32 = x: int | -0x8000_0000 <= x < 0x8000_0000

  /** The value Java's 32-bit two's-complement arithmetic keeps of `x`. */
  function Wrap32(x: int): (r: int32)
    ensures (r as int - x) % TWO_32 == 0
    ensures MIN_INT <= x <= MAX_INT ==> r as int == x
  {
    (((x - MIN_INT) % TWO_32) + MIN_INT) as int32
  }

  /** Wrapping after every step equals wrapping once at the end. */
  lemma Wrap32Add(x: int, y: int)
    ensures Wrap32(Wrap32(x) as int + y) == Wrap32(x + y)
  {
    var q := (x - MIN_INT) / TWO_32;
    assert Wrap32(x) as int == x - TWO_32 * q;
    assert (Wrap32(x) as int + y - MIN_INT) == (x + y - MIN_INT) + TWO_32 * (-q);
  }

  /** Java's `/` on int for a positive divisor: truncates toward zero. */
  function JavaDiv(a: int, b: int): (r: int)
    requires b > 0
    ensures 0 <= a ==> 0 <= r && r * b <= a < r * b + b
    ensures a < 0 ==> r <= 0 && a <= r * b < a + b
  {
    if a >= 0 then DivBounds(a, b); a / b
    else DivBounds(-a, b); -((-a) / b)
  }

  lemma DivBounds(a: nat, b: int)
    requires b > 0
    ensures 0 <= (a / b) * b <= a < (a / b) * b + b
  {
    assert a == (a / b) * b + a % b;
  }

  // ------------------------------------------------------- fields and tuples

  datatype FieldType = IntType | StringType

  /** A field value: simpledb.storage.IntField or StringField. */
  datatype Field = IntField(n: int32) | StringField(s: string)

  datatype TransactionId = TransactionId(id: nat)

  /** simpledb.storage.HeapPageId: a table id and a page number. */
  datatype PageId = PageId(tableId: int32, pageNo: int32)

  /** A tuple's storage address: its page and slot. */
  datatype RecordId = RecordId(pid: PageId, slot: int)

  /** A tuple: its field values and, for a stored tuple, its record id. */
  datatype Tuple = Tuple(fields: seq<Field>, rid: Option<RecordId>)

  /** A page as the cache sees it: identifier, byte image and the
      transaction that last dirtied it (None when clean). */
  datatype Page = Page(id: PageId, bytes: seq<bv8>, dirtier: Option<TransactionId>)

  /** Page.markDirty(dirty, tid). */
  function MarkDirty(p: Page, dirty: bool, tid: TransactionId): Page
  {
    p.(dirtier := if dirty then Some(tid) else None)
  }
}

/** Status codes, optional values and results shared by every container of the clib library. */
module ClibCommon {

  /** An octet, as `uint8_t` and the bytes an object or a buffer holds. */
  newtype byte = x: int | 0 <= x < 0x100

  /** An optional value: `None` stands for a null pointer or a "not found" answer. */
  datatype Option<+T> = None | Some(value: T)

  /** The library's result codes, one constructor per CLIB_* error macro. */
  datatype Status =
    | Success               // CLIB_ERROR_SUCCESS
    | Error                 // CLIB_ERROR_ERROR
    | MemoryError           // CLIB_ERROR_MEMORY
    | ElementReturnError    // CLIB_ELEMENT_RETURN_ERROR
    | ArrayNotInitialized   // CLIB_ARRAY_NOT_INITIALIZED
    | ArrayIndexOutOfBound  // CLIB_ARRAY_INDEX_OUT_OF_BOUND
    | ArrayInsertFailed     // CLIB_ARRAY_INSERT_FAILED
    | DequeNotInitialized   // CLIB_DEQUE_NOT_INITIALIZED
    | DequeIndexOutOfBound  // CLIB_DEQUE_INDEX_OUT_OF_BOUND
    | RbtreeNotInitialized  // CLIB_RBTREE_NOT_INITIALIZED
    | RbtreeKeyDuplicate    // CLIB_RBTREE_KEY_DUPLICATE
    | RbtreeKeyNotFound     // CLIB_RBTREE_KEY_NOT_FOUND
    | SetNotInitialized     // CLIB_SET_NOT_INITIALIZED
    | SetInvalidInput       // CLIB_SET_INVALID_INPUT
    | MapNotInitialized     // CLIB_MAP_NOT_INITIALIZED
    | MapInvalidInput       // CLIB_MAP_INVALID_INPUT
    | SlistInsertFailed     // CLIB_SLIST_INSERT_FAILED
  {
    /** The integer the C library hands back for this status. Zero is the
        one success value, so a caller can branch on "non-zero means failure". */
    function Code(): (c: int)
      ensures c == 0 <==> this == Success
      ensures c >= 0
    {
      match this
      case Success => 0
      case Error => 1
      case MemoryError => 2
      case ElementReturnError => 3
      case ArrayNotInitialized => 101
      case ArrayIndexOutOfBound => 102
      case ArrayInsertFailed => 103
      case DequeNotInitialized => 201
      case DequeIndexOutOfBound => 202
      case RbtreeNotInitialized => 401
      case RbtreeKeyDuplicate => 401
      case RbtreeKeyNotFound => 402
      case SetNotInitialized => 501
      case SetInvalidInput => 502
      case MapNotInitialized => 501
      case MapInvalidInput => 502
      case SlistInsertFailed => 601
    }
  }

  /** The header gives three pairs of statuses the same number: a caller of the tree
      cannot tell a duplicate key from an uninitialised tree, and the set and map
      codes coincide. Every other pair of statuses is told apart by its code. */
  lemma CodeCollisions(a: Status, b: Status)
    ensures a.Code() == b.Code() <==>
      || a == b
      || {a, b} == {RbtreeNotInitialized, RbtreeKeyDuplicate}
      || {a, b} == {SetNotInitialized, MapNotInitialized}
      || {a, b} == {SetInvalidInput, MapInvalidInput}
  {
  }

  /** A value, or the status that explains why there is none (an error return
      together with an out-parameter the caller must not trust). */
  datatype Result<+T> = Ok(value: T) | Err(status: Status)
}

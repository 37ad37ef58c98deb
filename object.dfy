/** `struct clib_object`: a heap copy of a caller's value, `raw_data`, together with
    its size in bytes. Every container element is held in one of these. */
module ClibObject {
  import opened ClibCommon

  /** Copies the first `n` octets of `src` into a new buffer. */
  method CopyBytes(src: array<byte>, n: nat) returns (dst: array<byte>)
    requires n <= src.Length
    ensures fresh(dst) && dst[..] == src[..n]
  {
    dst := new byte[n];
    var i := 0;
    while i < n
      invariant i <= n
      invariant forall j :: 0 <= j < i ==> dst[j] == src[j]
    {
      dst[i] := src[i];
      i := i + 1;
    }
  }

  class Object {
    var rawData: array<byte>
    var size: nat

    ghost predicate Valid()
      reads this
    {
      size == rawData.Length
    }

    /** The payload the object holds. */
    ghost function Payload(): seq<byte>
      reads this, rawData
    {
      rawData[..]
    }

    /** `clib_object_new`: copies `objSize` octets of the caller's value into storage
        of the object's own, so later changes to either side do not reach the other. */
    constructor (inObject: array<byte>, objSize: nat)
      requires objSize <= inObject.Length
      ensures Valid() && fresh(rawData) && size == objSize
      ensures Payload() == inObject[..objSize]
    {
      var copy := CopyBytes(inObject, objSize);
      rawData := copy;
      size := objSize;
    }

    /** `clib_object_get_raw`: the payload, handed out together with a success code. */
    method GetRaw() returns (status: Status, elem: seq<byte>)
      requires Valid()
      ensures status == Success && elem == Payload() && |elem| == size
    {
      elem := rawData[..];
      status := Success;
    }

    /** `clib_object_replace_raw`: drops the old payload and takes a copy of
        `elemSize` octets of `elem` in its place. */
    method ReplaceRaw(elem: array<byte>, elemSize: nat)
      requires Valid() && elemSize <= elem.Length
      modifies this
      ensures Valid() && fresh(rawData) && size == elemSize
      ensures Payload() == old(elem[..elemSize])
    {
      rawData := CopyBytes(elem, elemSize);
      size := elemSize;
    }
  }
}

/** What a client gets back from a brokered call: the kernel's completion of a
    response (kernel/src/gpu_render.rs, `finish_response`). */
module RenderReturn {
  import opened Wrappers
  import opened Bytes
  import opened RenderMarshal
  import opened RenderPatch

  /** A pointer field of the record that the kernel replaced, with the client's own
      pointer and the range of the payload behind it. */
  datatype Aux = Aux(pointerField: nat, userPtr: U64, offset: nat, len: nat, copyOut: bool)

  const STATUS_EINVAL: int := -22
  const STATUS_EFAULT: int := -14

  /** The pointer fields lie in the record. */
  predicate Placed(aux: seq<Aux>, argLen: nat) {
    forall i :: 0 <= i < |aux| ==> aux[i].pointerField + 8 <= argLen
  }

  function Max(a: nat, b: nat): nat {
    if a >= b then a else b
  }

  /** The bytes that the response must have. */
  function Required(argLen: nat, aux: seq<Aux>): (n: nat)
    ensures n >= argLen && forall i :: 0 <= i < |aux| ==> aux[i].offset + aux[i].len <= n
    ensures n == argLen || exists i :: 0 <= i < |aux| && n == aux[i].offset + aux[i].len
  {
    if aux == [] then argLen
    else
      var last := aux[|aux| - 1];
      Max(Required(argLen, aux[..|aux| - 1]), last.offset + last.len)
  }

  /** The response with the client's pointers put back. */
  function Restored(payload: seq<Byte>, aux: seq<Aux>): (r: seq<Byte>)
    requires Placed(aux, |payload|)
    ensures |r| == |payload|
  {
    if aux == [] then payload
    else
      var last := aux[|aux| - 1];
      Store64(Restored(payload, aux[..|aux| - 1]), last.pointerField, last.userPtr)
  }

  /** Some range that is to be copied out cannot be written. */
  predicate CopyOutFails(aux: seq<Aux>, writable: seq<bool>)
    requires |writable| == |aux|
  {
    exists i :: 0 <= i < |aux| && aux[i].copyOut && aux[i].len != 0 && !writable[i]
  }

  /** The record that the client gets back, if the record is copied back at all. */
  method FinishResponse(
    status: int, payload: seq<Byte>, argLen: nat, aux: seq<Aux>, copyFlat: bool, writable: seq<bool>, flatWritable: bool)
    returns (code: int, record: Option<seq<Byte>>)
    requires Placed(aux, argLen) && |writable| == |aux|
    ensures status != 0 ==> code == status && record == None
    ensures status == 0 && |payload| < Required(argLen, aux) ==> code == STATUS_EINVAL && record == None
    ensures status == 0 && |payload| >= Required(argLen, aux) ==>
              if CopyOutFails(aux, writable) || (copyFlat && !flatWritable) then code == STATUS_EFAULT && record == None
              else code == 0 && record == if copyFlat then Some(Restored(payload, aux)[..argLen]) else None
  {
    hide Store64;
    if status != 0 {
      return status, None;
    }
    if |payload| < Required(argLen, aux) {
      return STATUS_EINVAL, None;
    }
    var response := payload;
    for i := 0 to |aux|
      invariant Placed(aux[..i], |payload|) && response == Restored(payload, aux[..i])
      invariant !exists k :: 0 <= k < i && aux[k].copyOut && aux[k].len != 0 && !writable[k]
    {
      assert aux[..i + 1][..i] == aux[..i];
      response := Store64(response, aux[i].pointerField, aux[i].userPtr);
      if aux[i].copyOut && aux[i].len != 0 && !writable[i] {
        return STATUS_EFAULT, None;
      }
    }
    assert aux[..|aux|] == aux;
    if copyFlat {
      if !flatWritable {
        return STATUS_EFAULT, None;
      }
      return 0, Some(response[..argLen]);
    }
    return 0, None;
  }

  predicate Apart(aux: seq<Aux>) {
    forall i, j :: 0 <= i < j < |aux| ==>
      aux[i].pointerField + 8 <= aux[j].pointerField || aux[j].pointerField + 8 <= aux[i].pointerField
  }

  /** Every replaced pointer comes back as the client's own, whatever daemon and
      driver put into its field. */
  lemma {:induction false} PointersComeBack(payload: seq<Byte>, aux: seq<Aux>, i: nat)
    requires Placed(aux, |payload|) && Apart(aux) && i < |aux|
    ensures Holds64(Restored(payload, aux), aux[i].pointerField, aux[i].userPtr)
    decreases |aux|
  {
    hide Store64, Holds64;
    var last, before := aux[|aux| - 1], aux[..|aux| - 1];
    var r := Restored(payload, before);
    if i == |before| {
      StoreHolds(r, last.pointerField, last.userPtr);
    } else {
      PointersComeBack(payload, before, i);
      StoreElsewhere(r, last.pointerField, last.userPtr, aux[i].pointerField, aux[i].userPtr);
    }
  }

  /** Nothing outside those fields is touched. */
  lemma {:induction false} OtherBytesStay(payload: seq<Byte>, aux: seq<Aux>, k: nat)
    requires Placed(aux, |payload|) && k < |payload|
    requires forall i :: 0 <= i < |aux| ==> !(aux[i].pointerField <= k < aux[i].pointerField + 8)
    ensures Restored(payload, aux)[k] == payload[k]
    decreases |aux|
  {
    if aux != [] {
      OtherBytesStay(payload, aux[..|aux| - 1], k);
    }
  }

  /** A command submission has no such entry. When the driver leaves the pointer
      field of the patched record alone, the client's record comes back with the
      address of the pointer array in the daemon: its own pointer is restored
      exactly when the two addresses happen to be equal. */
  lemma SubmissionComesBackIff(b: seq<Byte>, patched: seq<Byte>, base: nat, response: seq<Byte>)
    requires Patched(b, patched, base) && base + |b| < ADDRESS_SPACE
    requires |response| == |b| && response[16..24] == patched[16..24]
    ensures Placed([], |response|) && |Restored(response, [])| >= ARG
    ensures var record := Restored(response, [])[..ARG];
            && Holds64(record, 16, base + ARG)
            && (Word64(record, 16) == Word64(b, 16) <==> Word64(b, 16) == base + ARG)
  {
    hide DataOff, Dwords, Le64;
    var record := Restored(response, [])[..ARG];
    assert record[16..24] == response[16..24];
    assert Holds64(patched, 16, base + ARG);
  }
}

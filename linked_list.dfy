/** src/linked_list.c: a singly linked list of opaque elements, seen through the
    sequence of its elements from head to tail.

    Of the operations, only linked_list_create has a body in the source; destroy,
    prepend, get_first, remove_first and is_empty are TODO stubs that always
    fail; append, length, get_last and find have no body at all and are given
    the behaviour the test suite names for them. */
module LinkedLists {
  import opened Types
  import opened ReturnCodes

  /** A free_function_t: it releases an element and returns nothing. */
  type FreeFunction<-T> = T -> ()
  /** A compare_function_t: 0 when the two elements match. */
  type CompareFunction<-T> = (T, T) -> int

  class LinkedList<T> {
    /** The data of the nodes from head to tail; [] when head is NULL. */
    var items: seq<T>
    const freeFunction: FreeFunction<T>
    const compareFunction: Option<CompareFunction<T>>

    constructor (freeFunction: FreeFunction<T>, compareFunction: Option<CompareFunction<T>>)
      ensures items == []
      ensures this.freeFunction == freeFunction && this.compareFunction == compareFunction
    {
      items := [];
      this.freeFunction := freeFunction;
      this.compareFunction := compareFunction;
    }
  }

  /** The return code of linked_list_create as written: the out-pointer, the
      free function and the compare function must all be non-NULL. */
  function CreateStatusAsWritten(outPtrNull: bool, hasFreeFunction: bool, hasCompareFunction: bool): (rc: ReturnCode)
    ensures rc == Success <==> !outPtrNull && hasFreeFunction && hasCompareFunction
    ensures rc != Success ==> rc == FailureInvalidInput
  {
    if outPtrNull || !hasFreeFunction || !hasCompareFunction then FailureInvalidInput else Success
  }

  /** blockchain_create and blockchain_deserialize create their lists with a
      NULL compare function, so with the check as written they always fail. */
  lemma CreateWithoutCompareFailsAsWritten(outPtrNull: bool, hasFreeFunction: bool)
    ensures CreateStatusAsWritten(outPtrNull, hasFreeFunction, false) == FailureInvalidInput
  {
  }

  /** The return code of linked_list_create once a NULL compare function is
      allowed, as the test list's "compare function may be NULL" case and every
      caller in blockchain.c expect. */
  function CreateStatus(outPtrNull: bool, hasFreeFunction: bool): (rc: ReturnCode)
    ensures rc == Success <==> !outPtrNull && hasFreeFunction
    ensures rc != Success ==> rc == FailureInvalidInput
  {
    if outPtrNull || !hasFreeFunction then FailureInvalidInput else Success
  }

  /** linked_list_create, accepting a NULL compare function: a new empty list
      that keeps the given free and compare functions. */
  method Create<T>(outPtrNull: bool, freeFunction: Option<FreeFunction<T>>, compareFunction: Option<CompareFunction<T>>)
    returns (rc: ReturnCode, list: LinkedList?<T>)
    ensures rc == CreateStatus(outPtrNull, freeFunction.Some?)
    ensures rc == Success ==> list != null && fresh(list) && list.items == []
    ensures rc == Success ==> list.freeFunction == freeFunction.value && list.compareFunction == compareFunction
    ensures rc != Success ==> list == null
  {
    rc := CreateStatus(outPtrNull, freeFunction.Some?);
    if rc == Success {
      list := new LinkedList(freeFunction.value, compareFunction);
    } else {
      list := null;
    }
  }

  /** linked_list_append: adds the element at the back. */
  method Append<T>(list: LinkedList?<T>, data: T) returns (rc: ReturnCode)
    modifies list
    ensures list == null ==> rc == FailureInvalidInput
    ensures list != null ==> rc == Success && list.items == old(list.items) + [data]
  {
    if list == null {
      return FailureInvalidInput;
    }
    list.items := list.items + [data];
    rc := Success;
  }

  /** linked_list_length: the number of elements. */
  method Length<T>(list: LinkedList?<T>) returns (rc: ReturnCode, length: nat)
    ensures list == null ==> rc == FailureInvalidInput
    ensures list != null ==> rc == Success && length == |list.items|
  {
    if list == null {
      return FailureInvalidInput, 0;
    }
    rc, length := Success, |list.items|;
  }

  /** linked_list_get_last: fails on an empty list, otherwise gives the last element. */
  method GetLast<T>(list: LinkedList?<T>) returns (rc: ReturnCode, last: Option<T>)
    ensures list == null ==> rc == FailureInvalidInput
    ensures list != null && list.items == [] ==> rc != Success && last.None?
    ensures list != null && list.items != [] ==> rc == Success && last == Some(list.items[|list.items| - 1])
  {
    if list == null || list.items == [] {
      return FailureInvalidInput, None;
    }
    rc, last := Success, Some(list.items[|list.items| - 1]);
  }

  /** linked_list_find: fails without a compare function; otherwise gives the
      first element the compare function matches with `data`, or nothing. */
  method Find<T>(list: LinkedList?<T>, data: T) returns (rc: ReturnCode, found: Option<T>)
    ensures list == null || list.compareFunction.None? ==> rc == FailureInvalidInput && found.None?
    ensures list != null && list.compareFunction.Some? ==> rc == Success
    ensures rc == Success && found.None? ==>
      forall i :: 0 <= i < |list.items| ==> list.compareFunction.value(data, list.items[i]) != 0
    ensures rc == Success && found.Some? ==>
      exists i :: 0 <= i < |list.items| && found.value == list.items[i] &&
        list.compareFunction.value(data, list.items[i]) == 0 &&
        forall j :: 0 <= j < i ==> list.compareFunction.value(data, list.items[j]) != 0
  {
    if list == null || list.compareFunction.None? {
      return FailureInvalidInput, None;
    }
    var compare := list.compareFunction.value;
    var items := list.items;
    var i := 0;
    while i < |items|
      invariant 0 <= i <= |items|
      invariant forall j :: 0 <= j < i ==> compare(data, items[j]) != 0
    {
      if compare(data, items[i]) == 0 {
        return Success, Some(items[i]);
      }
      i := i + 1;
    }
    rc, found := Success, None;
  }

  /** linked_list_destroy (src/linked_list.c) is a TODO stub that always fails. */
  function Destroy<T>(list: LinkedList?<T>): (rc: ReturnCode)
    ensures rc == FailureInvalidInput
  {
    FailureInvalidInput
  }

  /** linked_list_prepend (src/linked_list.c) is a TODO stub that always fails
      and leaves the list as it was. */
  function Prepend<T>(list: LinkedList?<T>, data: T): (rc: ReturnCode)
    ensures rc == FailureInvalidInput
  {
    FailureInvalidInput
  }

  /** linked_list_get_first (src/linked_list.c) is a TODO stub that always fails. */
  function GetFirst<T>(list: LinkedList?<T>): (rc: ReturnCode)
    ensures rc == FailureInvalidInput
  {
    FailureInvalidInput
  }

  /** linked_list_remove_first (src/linked_list.c) is a TODO stub that always
      fails and leaves the list as it was. */
  function RemoveFirst<T>(list: LinkedList?<T>): (rc: ReturnCode)
    ensures rc == FailureInvalidInput
  {
    FailureInvalidInput
  }

  /** linked_list_is_empty (src/linked_list.c) is a TODO stub that always fails. */
  function IsEmpty<T>(list: LinkedList?<T>): (rc: ReturnCode)
    ensures rc == FailureInvalidInput
  {
    FailureInvalidInput
  }
}

/**
  The status vocabulary returned by the mutating context operations: a
  closed set of tags, each spelled as its own name, split into success
  and failure tags.
 */
module Status {

  datatype Status =
    | Ok | ContextMerged | ContextReplaced | ContextPushed | SetKeySuccessful
    | Failure | NotContextOrArray | AlreadyAtRootOrEmptyPath | InvalidStringIndexForArray
    | InvalidIndexTypeForArray | NotArray | CannotSetKeyForArray

  /** The string each tag stands for (the key and the value agree). */
  function Name(s: Status): string
  {
    match s
    case Ok => "OK"
    case ContextMerged => "CONTEXT_MERGED"
    case ContextReplaced => "CONTEXT_REPLACED"
    case ContextPushed => "CONTEXT_PUSHED"
    case SetKeySuccessful => "SET_KEY_SUCCESSFUL"
    case Failure => "FAILURE"
    case NotContextOrArray => "NOT_CONTEXT_OR_ARRAY"
    case AlreadyAtRootOrEmptyPath => "ALREADY_AT_ROOT_OR_EMPTY_PATH"
    case InvalidStringIndexForArray => "INVALID_STRING_INDEX_FOR_ARRAY"
    case InvalidIndexTypeForArray => "INVALID_INDEX_TYPE_FOR_ARRAY"
    case NotArray => "NOT_ARRAY"
    case CannotSetKeyForArray => "CANNOT_SET_KEY_FOR_ARRAY"
  }

  /** The keys of `successStatuses`. */
  const SuccessNames: set<string> :=
    {"OK", "CONTEXT_MERGED", "CONTEXT_REPLACED", "CONTEXT_PUSHED", "SET_KEY_SUCCESSFUL"}

  /** The keys of `failureStatuses`. */
  const FailureNames: set<string> :=
    {"FAILURE", "NOT_CONTEXT_OR_ARRAY", "ALREADY_AT_ROOT_OR_EMPTY_PATH", "INVALID_STRING_INDEX_FOR_ARRAY",
     "INVALID_INDEX_TYPE_FOR_ARRAY", "NOT_ARRAY", "CANNOT_SET_KEY_FOR_ARRAY"}

  /** The keys of `treeUpdateStatus`, the spread of both objects. */
  const AllNames: set<string> := SuccessNames + FailureNames

  const SuccessTags: set<Status> := {Ok, ContextMerged, ContextReplaced, ContextPushed, SetKeySuccessful}

  /** `isSuccessfulTreeUpdateStatus`: `status in successStatuses`. */
  predicate IsSuccessful(s: Status)
    ensures IsSuccessful(s) <==> s in SuccessTags
  {
    Name(s) in SuccessNames
  }

  /** Every tag is spelled by a distinct string. */
  lemma {:induction false} NameInjective(a: Status, b: Status)
    requires Name(a) == Name(b)
    ensures a == b
  {
  }

  /** No tag is both a success and a failure, and every tag is one of them. */
  lemma {:induction false} Partition(s: Status)
    ensures Name(s) in AllNames
    ensures Name(s) in SuccessNames <==> Name(s) !in FailureNames
  {
  }

  /** The two sets share no name. */
  lemma {:induction false} Disjoint()
    ensures SuccessNames !! FailureNames
  {
    forall n | n in SuccessNames
      ensures n !in FailureNames
    {
    }
  }

  /** Every name of the vocabulary spells some tag. */
  lemma {:induction false} Covered(n: string)
    requires n in AllNames
    ensures exists s :: Name(s) == n
  {
    if n == "OK" { assert Name(Ok) == n; }
    else if n == "CONTEXT_MERGED" { assert Name(ContextMerged) == n; }
    else if n == "CONTEXT_REPLACED" { assert Name(ContextReplaced) == n; }
    else if n == "CONTEXT_PUSHED" { assert Name(ContextPushed) == n; }
    else if n == "SET_KEY_SUCCESSFUL" { assert Name(SetKeySuccessful) == n; }
    else if n == "FAILURE" { assert Name(Failure) == n; }
    else if n == "NOT_CONTEXT_OR_ARRAY" { assert Name(NotContextOrArray) == n; }
    else if n == "ALREADY_AT_ROOT_OR_EMPTY_PATH" { assert Name(AlreadyAtRootOrEmptyPath) == n; }
    else if n == "INVALID_STRING_INDEX_FOR_ARRAY" { assert Name(InvalidStringIndexForArray) == n; }
    else if n == "INVALID_INDEX_TYPE_FOR_ARRAY" { assert Name(InvalidIndexTypeForArray) == n; }
    else if n == "NOT_ARRAY" { assert Name(NotArray) == n; }
    else { assert Name(CannotSetKeyForArray) == n; }
  }
}

/** Values shared by every part of the photo frame: bytes, photos, the outcome of a
    call that may throw, and the events posted on the process-wide event bus. */
module Model {

  /** A Kotlin/Java `Byte`: signed, eight bits wide. */
  type Byte = b: int | -128 <= b < 128

  /** A local photo: `filename` is the full path in app storage, `digest` the lowercase
      hex SHA-1 of the file's bytes. */
  datatype Photo = Photo(filename: string, digest: string)

  datatype Option<T> = None | Some(value: T)

  /** Why a call threw: a transport failure (HTTP) or a local file failure. */
  datatype Cause = Network | Io

  /** The outcome of a call that may throw an exception instead of returning. */
  datatype Result<T> = Ok(value: T) | Err(cause: Cause)

  /** The events the frame posts on its event bus; posting one appends it to the log. */
  datatype Event =
    | ReloadRequest(reason: string)
    | RemoteKeyPressEvent(keyCode: int)

  /** The file system of the app's storage: full path to file contents. */
  type FileSystem = map<string, seq<Byte>>

  /** `s` begins with `p`. */
  predicate StartsWith(s: string, p: string) {
    |p| <= |s| && s[..|p|] == p
  }
}

/** Order-preserving filtering and subsequences, the shape of every "keep the entries
    that ..." loop in the sync worker and the photo repository. */
module Sequences {

  /** The elements of `s` for which `keep` holds, in their order in `s`. */
  function Filter<T>(s: seq<T>, keep: T -> bool): seq<T> {
    if s == [] then []
    else (if keep(s[0]) then [s[0]] else []) + Filter(s[1..], keep)
  }

  /** `a` can be obtained from `b` by deleting elements. */
  predicate IsSubsequence<T(==)>(a: seq<T>, b: seq<T>) {
    if a == [] then true
    else if b == [] then false
    else if a[0] == b[0] then IsSubsequence(a[1..], b[1..])
    else IsSubsequence(a, b[1..])
  }

  /** An element is kept exactly when it is in `s` and satisfies `keep`. */
  lemma {:induction false} FilterMembership<T>(s: seq<T>, keep: T -> bool, x: T)
    ensures x in Filter(s, keep) <==> x in s && keep(x)
  {
    if s != [] {
      FilterMembership(s[1..], keep, x);
      assert s == [s[0]] + s[1..];
    }
  }

  /** Every copy of a kept value survives, and no copy of a dropped value does. */
  lemma {:induction false} FilterCount<T>(s: seq<T>, keep: T -> bool, x: T)
    ensures multiset(Filter(s, keep))[x] == if keep(x) then multiset(s)[x] else 0
  {
    if s != [] {
      FilterCount(s[1..], keep, x);
      assert s == [s[0]] + s[1..];
    }
  }

  /** Filtering keeps the order of `s`. */
  lemma {:induction false} FilterIsSubsequence<T>(s: seq<T>, keep: T -> bool)
    ensures IsSubsequence(Filter(s, keep), s)
  {
    if s != [] {
      FilterIsSubsequence(s[1..], keep);
      if keep(s[0]) {
        assert Filter(s, keep) == [s[0]] + Filter(s[1..], keep);
      } else {
        assert Filter(s, keep) == Filter(s[1..], keep);
        SubsequenceOfTail(Filter(s[1..], keep), s);
      }
    }
  }

  /** Dropping the head of `b` keeps every subsequence of its tail a subsequence of `b`. */
  lemma {:induction false} SubsequenceOfTail<T>(a: seq<T>, b: seq<T>)
    requires b != [] && IsSubsequence(a, b[1..])
    ensures IsSubsequence(a, b)
    decreases |b|, 0
  {
    if a != [] && a[0] == b[0] {
      SubsequenceDropHead(a, b[1..]);
    }
  }

  /** A subsequence stays one when its first element is dropped. */
  lemma {:induction false} SubsequenceDropHead<T>(a: seq<T>, b: seq<T>)
    requires a != [] && IsSubsequence(a, b)
    ensures IsSubsequence(a[1..], b)
    decreases |b|, 1
  {
    if b != [] {
      if a[0] == b[0] {
        if a[1..] != [] {
          SubsequenceOfTail(a[1..], b);
        }
      } else {
        SubsequenceDropHead(a, b[1..]);
        if a[1..] != [] {
          SubsequenceOfTail(a[1..], b);
        }
      }
    }
  }

  /** Filtering one more element at the end extends the filtered sequence by at most it. */
  lemma {:induction false} FilterSnoc<T>(s: seq<T>, x: T, keep: T -> bool)
    ensures Filter(s + [x], keep) == Filter(s, keep) + (if keep(x) then [x] else [])
  {
    if s == [] {
      assert [x][1..] == [];
    } else {
      assert (s + [x])[1..] == s[1..] + [x];
      FilterSnoc(s[1..], x, keep);
    }
  }
}

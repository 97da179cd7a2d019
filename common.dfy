/** Vocabulary shared by the whole model: bytes, optional values and failures,
    the two JavaScript string searches the bundle-name derivation relies on,
    the zip descriptor every load starts from, and the external calls a load
    performs (recorded in order so that their sequencing can be stated). */
module Common {

  newtype byte = x: int | 0 <= x < 256

  /** The contents of an `ArrayBuffer` / `Uint8Array`. */
  type Bytes = seq<byte>

  datatype Option<+T> = None | Some(value: T)

  datatype Result<+T, +E> = Success(value: T) | Failure(error: E)

  /** JavaScript truthiness of an optional string: both `undefined` and `""` are falsy. */
  predicate Truthy(s: Option<string>)
  {
    s.Some? && s.value != ""
  }

  /** `s.indexOf(c)`: the first position of `c` in `s`, or -1 when there is none. */
  function IndexOf(s: string, c: char): (i: int)
    ensures -1 <= i < |s|
    ensures i == -1 <==> c !in s
    ensures 0 <= i ==> s[i] == c && c !in s[..i]
  {
    if s == [] then -1
    else if s[0] == c then 0
    else
      var j := IndexOf(s[1..], c);
      if j == -1 then -1 else j + 1
  }

  /** `s.lastIndexOf(c)`: the last position of `c` in `s`, or -1 when there is none. */
  function LastIndexOf(s: string, c: char): (i: int)
    ensures -1 <= i < |s|
    ensures i == -1 <==> c !in s
    ensures 0 <= i ==> s[i] == c && c !in s[i + 1..]
  {
    if s == [] then -1
    else if s[|s| - 1] == c then |s| - 1
    else
      var j := LastIndexOf(s[..|s| - 1], c);
      assert s == s[..|s| - 1] + [s[|s| - 1]];
      assert 0 <= j ==> s[j + 1..] == s[..|s| - 1][j + 1..] + [s[|s| - 1]];
      j
  }

  /** The position of a character is determined by the two facts `IndexOf` promises. */
  lemma IndexOfIs(s: string, c: char, i: nat)
    requires i < |s| && s[i] == c && c !in s[..i]
    ensures IndexOf(s, c) == i
  {
  }

  /** The position of a character is determined by the two facts `LastIndexOf` promises. */
  lemma LastIndexOfIs(s: string, c: char, i: nat)
    requires i < |s| && s[i] == c && c !in s[i + 1..]
    ensures LastIndexOf(s, c) == i
  {
  }

  /** Text without `c` appended after `s` leaves the last position of `c` where it was. */
  lemma LastIndexOfAppend(s: string, tail: string, c: char)
    requires c !in tail
    ensures LastIndexOf(s + tail, c) == LastIndexOf(s, c)
  {
    var i := LastIndexOf(s, c);
    if i >= 0 {
      assert (s + tail)[i] == c;
      assert (s + tail)[i + 1..] == s[i + 1..] + tail;
      LastIndexOfIs(s + tail, c, i);
    } else {
      assert c !in s + tail by {
        forall k | 0 <= k < |s + tail| ensures (s + tail)[k] != c {
          if k < |s| { assert (s + tail)[k] == s[k]; } else { assert (s + tail)[k] == tail[k - |s|]; }
        }
      }
    }
  }

  /** In `s + [c] + rest` with no `c` in `s`, the first `c` is the one right after `s`. */
  lemma IndexOfAfter(s: string, c: char, rest: string)
    requires c !in s
    ensures IndexOf(s + [c] + rest, c) == |s|
  {
    var t := s + [c] + rest;
    assert t[|s|] == c;
    assert t[..|s|] == s;
    IndexOfIs(t, c, |s|);
  }

  /** A `DownloadableZipInfo`: where the bundle lives, an optional explicit
      bundle name and an optional expected SHA-256 digest (hex string). */
  datatype ZipInfo = ZipInfo(url: string, name: Option<string>, hash: Option<string>)

  /** An external call made while loading a bundle: the HTTP request, reading
      the response body, hashing it, unzipping it and the one bulk write. */
  datatype Effect =
    | Fetch(url: string)
    | ReadBody
    | Digest(data: Bytes)
    | Unzip(data: Bytes)
    | Store(keys: seq<string>)
}

/** Values shared by every part of the model: optional values (JavaScript's
    `undefined`), the status-tagged result of a route handler, and the
    string trimming that Mongoose applies to fields declared `trim: true`. */
module Common {

  datatype Option<+T> = None | Some(value: T)

  type Id = nat

  /** The outcome of a route handler: the JSON body on success, or the HTTP
      error status with the message the handler sends. */
  datatype Status<+T> =
    | Ok(value: T)
    | Bad400(msg: string)
    | Unauth401(msg: string)
    | Forbidden403(msg: string)
    | NotFound404(msg: string)
    | ServerError500(msg: string)

  const ServerError := "Server Error"

  /** JavaScript truthiness of an optional string: defined and non-empty. */
  predicate Truthy(s: Option<string>)
  {
    s.Some? && s.value != ""
  }

  /** The white-space and line-terminator characters removed by
      `String.prototype.trim`. */
  const Spaces: set<int> :=
    {0x09, 0x0A, 0x0B, 0x0C, 0x0D, 0x20, 0xA0, 0x1680,
     0x2000, 0x2001, 0x2002, 0x2003, 0x2004, 0x2005, 0x2006, 0x2007, 0x2008, 0x2009, 0x200A,
     0x2028, 0x2029, 0x202F, 0x205F, 0x3000, 0xFEFF}

  predicate IsSpace(c: char)
  {
    c as int in Spaces
  }

  /** Neither the first nor the last character is white space. */
  predicate Trimmed(s: string)
  {
    |s| == 0 || (!IsSpace(s[0]) && !IsSpace(s[|s| - 1]))
  }

  /** Drops leading white space: the result is the suffix of `s` left after
      the longest all-space prefix. */
  function TrimStart(s: string): (r: string)
    ensures |r| <= |s| && r == s[|s| - |r|..]
    ensures forall i :: 0 <= i < |s| - |r| ==> IsSpace(s[i])
    ensures r == [] || !IsSpace(r[0])
  {
    if |s| > 0 && IsSpace(s[0]) then TrimStart(s[1..]) else s
  }

  /** Drops trailing white space: the result is the prefix of `s` left before
      the longest all-space suffix. */
  function TrimEnd(s: string): (r: string)
    ensures |r| <= |s| && r == s[..|r|]
    ensures forall i :: |r| <= i < |s| ==> IsSpace(s[i])
    ensures r == [] || !IsSpace(r[|r| - 1])
  {
    if |s| > 0 && IsSpace(s[|s| - 1]) then TrimEnd(s[..|s| - 1]) else s
  }

  /** `r` is `s[a..b]` and everything cut from `s` is white space. */
  predicate CutSpaces(s: string, r: string, a: nat, b: nat)
  {
    a <= b <= |s| && r == s[a..b] &&
    (forall i :: 0 <= i < a ==> IsSpace(s[i])) &&
    (forall i :: b <= i < |s| ==> IsSpace(s[i]))
  }

  /** `String.prototype.trim`: white space is cut from both ends. */
  function Trim(s: string): (r: string)
    ensures Trimmed(r) && |r| <= |s|
  {
    TrimEnd(TrimStart(s))
  }

  /** What `Trim` leaves is a slice of `s`, and everything it cut away, at
      either end, is white space. */
  lemma TrimCutsSpaces(s: string)
    ensures exists a: nat, b: nat :: CutSpaces(s, Trim(s), a, b)
  {
    var t := TrimStart(s);
    var r := TrimEnd(t);
    assert Trim(s) == r;
    var a := |s| - |t|;
    var b := a + |r|;
    assert t == s[a..] && r == t[..|r|];
    assert r == s[a..b];
    forall i | b <= i < |s|
      ensures IsSpace(s[i])
    {
      assert s[i] == t[i - a];
    }
    assert CutSpaces(s, r, a, b);
  }

  /** A string already trimmed is left as it is, so trimming is idempotent. */
  lemma TrimmedFixed(s: string)
    requires Trimmed(s)
    ensures Trim(s) == s
  {
    assert TrimStart(s) == s;
  }

  lemma TrimIdempotent(s: string)
    ensures Trim(Trim(s)) == Trim(s)
  {
    TrimmedFixed(Trim(s));
  }
}

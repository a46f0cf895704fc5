/** The text processing of `read_countrynames`: the content of the country
    name file is split on `;` and every piece is stripped of surrounding
    whitespace, with Python's `str.split(';')` and `str.strip()` semantics.
    Reading the file itself is not modelled; the content is a parameter. */
module CountryNames {

  /** The separator between two names in the country name file. */
  const Separator: char := ';'

  /** Python's `str.isspace` for one character: the characters `str.strip()`
      removes when it is called without arguments. */
  predicate IsSpace(c: char)
  {
    || c == ' ' || c == '\t' || c == '\n' || c == '\r'
    || c == '\U{B}' || c == '\U{C}'
    || ('\U{1C}' <= c <= '\U{1F}')
    || c == '\U{85}' || c == '\U{A0}' || c == '\U{1680}'
    || ('\U{2000}' <= c <= '\U{200A}')
    || c == '\U{2028}' || c == '\U{2029}' || c == '\U{202F}' || c == '\U{205F}'
    || c == '\U{3000}'
  }

  /** The number of occurrences of `c` in `s`. */
  function Occurrences(s: string, c: char): nat
  {
    if s == [] then 0 else (if s[0] == c then 1 else 0) + Occurrences(s[1..], c)
  }

  /** `s.split(';')`: the maximal separator-free pieces of `s`, in order.
      There is always one more piece than there are separators, so the
      result is never empty (the empty string splits into one empty piece). */
  function Split(s: string): (parts: seq<string>)
    ensures |parts| == Occurrences(s, Separator) + 1
    ensures forall i :: 0 <= i < |parts| ==> Separator !in parts[i]
  {
    if s == [] then [[]]
    else if s[0] == Separator then [[]] + Split(s[1..])
    else
      var rest := Split(s[1..]);
      [[s[0]] + rest[0]] + rest[1..]
  }

  /** `';'.join(parts)`: the inverse of `Split`. */
  function Join(parts: seq<string>): string
    requires |parts| >= 1
  {
    if |parts| == 1 then parts[0] else parts[0] + [Separator] + Join(parts[1..])
  }

  /** Joining the pieces of a split gives back the original content. */
  lemma {:induction false} JoinSplit(s: string)
    ensures Join(Split(s)) == s
  {
    if s == [] {
    } else if s[0] == Separator {
      JoinSplit(s[1..]);
      assert Split(s) == [[]] + Split(s[1..]);
      assert Join(Split(s)) == [] + [Separator] + Join(Split(s[1..]));
    } else {
      var rest := Split(s[1..]);
      JoinSplit(s[1..]);
      if |rest| == 1 {
        assert Join(Split(s)) == [s[0]] + rest[0];
      } else {
        assert rest == [rest[0]] + rest[1..];
        assert Join(rest) == rest[0] + [Separator] + Join(rest[1..]);
        assert Join(Split(s)) == [s[0]] + rest[0] + [Separator] + Join(rest[1..]);
      }
    }
  }

  /** Splitting a joined list of separator-free pieces gives the pieces back. */
  lemma {:induction false} SplitJoin(parts: seq<string>)
    requires |parts| >= 1
    requires forall i :: 0 <= i < |parts| ==> Separator !in parts[i]
    ensures Split(Join(parts)) == parts
  {
    if |parts| == 1 {
      SplitPiece(parts[0], []);
      assert parts[0] + [] == parts[0] == Join(parts);
      assert Split([]) == [[]];
      assert Split(parts[0]) == [parts[0]] == parts;
    } else {
      SplitJoin(parts[1..]);
      var tail := [Separator] + Join(parts[1..]);
      assert tail[1..] == Join(parts[1..]);
      assert Split(tail) == [[]] + parts[1..];
      SplitPiece(parts[0], tail);
      assert parts[0] + tail == Join(parts);
      assert parts[0] + Split(tail)[0] == parts[0];
      assert Split(Join(parts)) == [parts[0]] + parts[1..] == parts;
    }
  }

  /** Prefixing a separator-free `w` extends the first piece by `w`. */
  lemma {:induction false} SplitPiece(w: string, t: string)
    requires Separator !in w
    ensures Split(w + t) == [w + Split(t)[0]] + Split(t)[1..]
  {
    if w != [] {
      SplitPiece(w[1..], t);
      assert (w + t)[1..] == w[1..] + t;
      assert [w[0]] + (w[1..] + Split(t)[0]) == w + Split(t)[0];
    } else {
      assert w + t == t && w + Split(t)[0] == Split(t)[0];
      assert Split(t) == [Split(t)[0]] + Split(t)[1..];
    }
  }

  /** `s.lstrip()`: `s` without its leading whitespace. */
  function TrimStart(s: string): (r: string)
    ensures |r| <= |s| && r == s[|s| - |r|..]
    ensures forall i :: 0 <= i < |s| - |r| ==> IsSpace(s[i])
    ensures r == [] || !IsSpace(r[0])
  {
    if s != [] && IsSpace(s[0]) then TrimStart(s[1..]) else s
  }

  /** `s.rstrip()`: `s` without its trailing whitespace. */
  function TrimEnd(s: string): (r: string)
    ensures |r| <= |s| && r == s[..|r|]
    ensures forall i :: |r| <= i < |s| ==> IsSpace(s[i])
    ensures r == [] || !IsSpace(r[|r| - 1])
  {
    if s != [] && IsSpace(s[|s| - 1]) then TrimEnd(s[..|s| - 1]) else s
  }

  /** `s.strip()`: the part of `s` between its leading and its trailing
      whitespace. `start` is where that part begins in `s`; everything
      before it and everything after it is whitespace, and the part itself
      neither begins nor ends with whitespace, so a string of whitespace
      only strips to the empty string. */
  function Strip(s: string): (r: string)
    ensures StripStart(s) + |r| <= |s|
    ensures r == s[StripStart(s)..StripStart(s) + |r|]
    ensures forall i :: 0 <= i < StripStart(s) ==> IsSpace(s[i])
    ensures forall i :: StripStart(s) + |r| <= i < |s| ==> IsSpace(s[i])
    ensures r == [] || (!IsSpace(r[0]) && !IsSpace(r[|r| - 1]))
  {
    var t := TrimStart(s);
    var r := TrimEnd(t);
    assert r == s[|s| - |t|..][..|r|];
    r
  }

  /** Where the stripped part of `s` begins. */
  function StripStart(s: string): nat
  {
    |s| - |TrimStart(s)|
  }

  /** Stripping a stripped string changes nothing. */
  lemma StripIdempotent(s: string)
    ensures Strip(Strip(s)) == Strip(s)
  {
  }

  /** `read_countrynames` after the file is read: one stripped name per
      `;`-separated piece of the content. The list is never empty, which is
      what `random.choice` in `create_flag_list` needs. */
  function ParseNames(content: string): (names: seq<string>)
    ensures |names| == |Split(content)| == Occurrences(content, Separator) + 1
    ensures forall i :: 0 <= i < |names| ==> Separator !in names[i]
    ensures forall i :: 0 <= i < |names| ==>
      names[i] == [] || (!IsSpace(names[i][0]) && !IsSpace(names[i][|names[i]| - 1]))
  {
    var parts := Split(content);
    seq(|parts|, i requires 0 <= i < |parts| => Strip(parts[i]))
  }

  /** Every character of `s` is whitespace. */
  ghost predicate AllSpace(s: string)
  {
    forall i :: 0 <= i < |s| ==> IsSpace(s[i])
  }

  /** `piece` is `name` with whitespace before and after it: `name` sits
      at some position `k` of `piece`, with only whitespace around it. */
  ghost predicate Padded(piece: string, name: string)
  {
    exists k :: 0 <= k <= |piece| - |name| && PaddedAt(piece, name, k)
  }

  ghost predicate PaddedAt(piece: string, name: string, k: int)
    requires 0 <= k <= |piece| - |name|
  {
    && piece[k..k + |name|] == name
    && AllSpace(piece[..k])
    && AllSpace(piece[k + |name|..])
  }

  /** `strip()` removes only whitespace around what it returns. */
  lemma StripPadded(piece: string)
    ensures Padded(piece, Strip(piece))
  {
    var name := Strip(piece);
    var k := StripStart(piece);
    var j := k + |name|;
    assert piece[k..j] == name;
    assert AllSpace(piece[..k]) by {
      forall i | 0 <= i < k
        ensures IsSpace(piece[..k][i])
      {
        assert piece[..k][i] == piece[i];
      }
    }
    assert AllSpace(piece[j..]) by {
      forall i | 0 <= i < |piece| - j
        ensures IsSpace(piece[j..][i])
      {
        assert piece[j..][i] == piece[j + i];
      }
    }
    assert PaddedAt(piece, name, k);
  }

  /** Each name is the piece of the content at the same position, with its
      surrounding whitespace removed; together with the stripped ends that
      `ParseNames` promises, this fixes every name. */
  lemma ParseNamesArePieces(content: string)
    ensures |ParseNames(content)| == |Split(content)|
    ensures forall i :: 0 <= i < |Split(content)| ==> Padded(Split(content)[i], ParseNames(content)[i])
  {
    var parts := Split(content);
    forall i | 0 <= i < |parts|
      ensures Padded(parts[i], ParseNames(content)[i])
    {
      assert ParseNames(content)[i] == Strip(parts[i]);
      StripPadded(parts[i]);
    }
  }

  /** Content already in canonical form (stripped, separator-free names
      joined by `;`) parses back into exactly those names. */
  lemma {:induction false} ParseJoinedNames(names: seq<string>)
    requires |names| >= 1
    requires forall i :: 0 <= i < |names| ==> Separator !in names[i] && Strip(names[i]) == names[i]
    ensures ParseNames(Join(names)) == names
  {
    SplitJoin(names);
  }
}

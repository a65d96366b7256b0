/** Utils::SplitString: a getline loop that cuts a string at a delimiter. */
module SplitString {

  /** The position of the first delimiter, or the length of the string. */
  function Find<T(==)>(s: seq<T>, delim: T): (i: nat)
    ensures i <= |s| && delim !in s[..i]
    ensures i < |s| ==> s[i] == delim
  {
    if s == [] || s[0] == delim then 0 else 1 + Find(s[1..], delim)
  }

  /** The tokens.  What follows the last delimiter is a token only if it is not empty. */
  function Split<T(==)>(s: seq<T>, delim: T): seq<seq<T>> {
    if s == [] then []
    else
      var i := Find(s, delim);
      if i == |s| then [s] else [s[..i]] + Split(s[i + 1..], delim)
  }

  function Join<T>(tokens: seq<seq<T>>, delim: T): seq<T> {
    if tokens == [] then []
    else if |tokens| == 1 then tokens[0]
    else tokens[0] + [delim] + Join(tokens[1..], delim)
  }

  predicate NoneHas<T(==)>(tokens: seq<seq<T>>, delim: T) {
    forall t :: t in tokens ==> delim !in t
  }

  lemma {:induction false} FindFirst<T>(t: seq<T>, delim: T, rest: seq<T>)
    requires delim !in t
    ensures Find(t + [delim] + rest, delim) == |t|
    ensures Find(t, delim) == |t|
  {
    if t != [] {
      assert (t + [delim] + rest)[1..] == t[1..] + [delim] + rest;
      FindFirst(t[1..], delim, rest);
    }
  }

  /** The first token of a string, up to its first delimiter. */
  lemma SplitHead<T>(t: seq<T>, delim: T, rest: seq<T>)
    requires delim !in t
    ensures Split(t + [delim] + rest, delim) == [t] + Split(rest, delim)
  {
    var s := t + [delim] + rest;
    FindFirst(t, delim, rest);
    assert s[..|t|] == t && s[|t| + 1..] == rest;
  }

  lemma SplitWhole<T>(t: seq<T>, delim: T)
    requires delim !in t
    ensures Split(t, delim) == if t == [] then [] else [t]
  {
    FindFirst(t, delim, []);
  }

  /** Splitting what was joined gives the tokens back, except for an empty last one. */
  lemma {:induction false} SplitOfJoin<T>(tokens: seq<seq<T>>, delim: T)
    requires NoneHas(tokens, delim)
    ensures Split(Join(tokens, delim), delim) ==
      if tokens != [] && tokens[|tokens| - 1] == [] then tokens[..|tokens| - 1] else tokens
  {
    if tokens == [] {
    } else if |tokens| == 1 {
      SplitWhole(tokens[0], delim);
    } else {
      var first := tokens[0];
      SplitHead(first, delim, Join(tokens[1..], delim));
      SplitOfJoin(tokens[1..], delim);
      assert tokens == [first] + tokens[1..];
    }
  }

  lemma {:induction false} TokensHaveNoDelimiter<T>(s: seq<T>, delim: T)
    ensures NoneHas(Split(s, delim), delim)
  {
    if s != [] {
      var i := Find(s, delim);
      if i == |s| {
        assert s[..i] == s;
      } else {
        TokensHaveNoDelimiter(s[i + 1..], delim);
      }
    }
  }

  /** A list of tokens survives exactly when no token has the delimiter and the last one is not empty. */
  lemma SplitInvertsJoinExactly<T>(tokens: seq<seq<T>>, delim: T)
    ensures Split(Join(tokens, delim), delim) == tokens <==>
      NoneHas(tokens, delim) && (tokens == [] || tokens[|tokens| - 1] != [])
  {
    if NoneHas(tokens, delim) {
      SplitOfJoin(tokens, delim);
    } else {
      TokensHaveNoDelimiter(Join(tokens, delim), delim);
    }
  }

  lemma JoinHead<T>(first: seq<T>, rest: seq<seq<T>>, delim: T)
    ensures Join([first] + rest, delim) == if rest == [] then first else first + [delim] + Join(rest, delim)
  {
    assert ([first] + rest)[1..] == rest;
  }

  /** Joining what was split gives the string back, but for a delimiter at its end. */
  lemma {:induction false} JoinOfSplit<T>(s: seq<T>, delim: T)
    ensures Join(Split(s, delim), delim) == if s != [] && s[|s| - 1] == delim then s[..|s| - 1] else s
  {
    if s != [] {
      var i := Find(s, delim);
      if i == |s| {
        assert s[..i] == s;
      } else {
        var first, rest := s[..i], s[i + 1..];
        assert s == first + [delim] + rest;
        JoinOfSplit(rest, delim);
        JoinHead(first, Split(rest, delim), delim);
      }
    }
  }

  lemma SplitNothing<T>(delim: T)
    ensures Split([], delim) == []
  {
  }

  /** std::getline: false when no character is left. */
  method GetLine<T(==)>(s: seq<T>, pos: nat, delim: T) returns (ok: bool, item: seq<T>, next: nat)
    requires pos <= |s|
    ensures ok <==> pos < |s|
    ensures ok ==> pos < next <= |s| && Split(s[pos..], delim) == [item] + Split(s[next..], delim)
  {
    hide Split, Find;
    next := pos;
    item := [];
    if pos == |s| {
      return false, [], pos;
    }
    while next < |s| && s[next] != delim
      invariant pos <= next <= |s|
      invariant item == s[pos..next] && delim !in item
    {
      item := item + [s[next]];
      next := next + 1;
    }
    ok := true;
    ghost var rest := s[pos..];
    if next < |s| {
      assert rest == item + [delim] + s[next + 1..];
      SplitHead(item, delim, s[next + 1..]);
      next := next + 1;
    } else {
      assert rest == item && s[next..] == [];
      SplitNothing<T>(delim);
      SplitWhole(item, delim);
    }
  }

  /** The tokens are appended to those the caller already has. */
  method SplitString<T(==)>(s: seq<T>, delim: T, before: seq<seq<T>>) returns (tokens: seq<seq<T>>)
    ensures tokens == before + Split(s, delim)
  {
    tokens := before;
    assert s[0..] == s;
    var ok, item, pos := GetLine(s, 0, delim);
    ghost var at := 0;
    while ok
      invariant at <= |s| && (ok <==> at < |s|)
      invariant ok ==> at < pos <= |s| && Split(s[at..], delim) == [item] + Split(s[pos..], delim)
      invariant tokens + Split(s[at..], delim) == before + Split(s, delim)
      decreases |s| - at
    {
      tokens := tokens + [item];
      at := pos;
      ok, item, pos := GetLine(s, pos, delim);
    }
  }
}

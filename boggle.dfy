/** The dictionary side of the Boggle solver (week4/BoggleSolver.java): a 26-way trie
    over the letters A-Z holding each dictionary word with its position, the scoring
    of words, and the filter that keeps the board's words found in the dictionary. */
module Boggle {
  import opened Common

  /** The radix of the trie: one child per letter A-Z. */
  const R: nat := 26

  /** A trie node: the value stored at the word spelled by the path to it (0 for none)
      and one child per letter. Nil is an absent node. */
  datatype Trie = Nil | Node(val: int, next: seq<Trie>)

  /** Every node has exactly R children. */
  ghost predicate WellFormed(x: Trie)
  {
    x.Node? ==> |x.next| == R && forall c :: 0 <= c < R ==> WellFormed(x.next[c])
  }

  predicate IsLetter(ch: char)
  {
    'A' <= ch <= 'Z'
  }

  predicate AllLetters(s: string)
  {
    forall i :: 0 <= i < |s| ==> IsLetter(s[i])
  }

  /** The characters of s from position d on are letters. */
  ghost predicate LettersFrom(s: string, d: nat)
  {
    forall i :: d <= i < |s| ==> IsLetter(s[i])
  }

  /** a and b have the same length and agree from position d on. */
  ghost predicate SameFrom(a: string, b: string, d: nat)
  {
    |a| == |b| && forall i :: d <= i < |a| ==> a[i] == b[i]
  }

  /** p is no longer than a and agrees with it from position d to the end of p. */
  ghost predicate PrefixFrom(p: string, a: string, d: nat)
  {
    |p| <= |a| && forall i :: d <= i < |p| ==> p[i] == a[i]
  }

  /** The child slot of a character: its distance from 'A'. */
  function Slot(ch: char): (c: int)
    ensures 0 <= c < R <==> IsLetter(ch)
  {
    ch as int - 'A' as int
  }

  /** A node with no value and no children. */
  function EmptyNode(): (r: Trie)
    ensures WellFormed(r) && r.Node? && r.val == 0
    ensures forall c :: 0 <= c < R ==> r.next[c] == Nil
  {
    Node(0, seq(R, _ => Nil))
  }

  /** put(x, key, val, d): stores val at key below x, which is reached by key[..d],
      creating the missing nodes; a character outside A-Z indexes outside the children. */
  function PutAt(x: Trie, key: string, val: int, d: nat): (r: Result<Trie, Error>)
    requires WellFormed(x) && d <= |key|
    ensures r.Success? ==> WellFormed(r.value) && r.value.Node?
    ensures r.Failure? ==> r.error == IndexOutOfBounds
    decreases |key| - d
  {
    var y := if x.Nil? then EmptyNode() else x;
    if d == |key| then Success(Node(val, y.next))
    else
      var c := Slot(key[d]);
      if c < 0 || c >= R then Failure(IndexOutOfBounds)
      else
        match PutAt(y.next[c], key, val, d + 1)
        case Failure(e) => Failure(e)
        case Success(child) => Success(Node(y.val, y.next[c := child]))
  }

  /** get(x, key, d): the node reached from x by key[d..], Nil when the path stops
      early; a character outside A-Z met at an existing node indexes outside the children. */
  function GetAt(x: Trie, key: string, d: nat): (r: Result<Trie, Error>)
    requires WellFormed(x) && d <= |key|
    ensures r.Success? ==> WellFormed(r.value)
    ensures r.Failure? ==> r.error == IndexOutOfBounds && !LettersFrom(key, d)
    decreases |key| - d
  {
    if x.Nil? then Success(Nil)
    else if d == |key| then Success(x)
    else
      var c := Slot(key[d]);
      if c < 0 || c >= R then Failure(IndexOutOfBounds)
      else GetAt(x.next[c], key, d + 1)
  }

  /** The value held by a found node, 0 when there is none. */
  function Val(r: Result<Trie, Error>): int
  {
    if r.Success? && r.value.Node? then r.value.val else 0
  }

  /** A node was found. */
  predicate IsNode(r: Result<Trie, Error>)
  {
    r.Success? && r.value.Node?
  }

  /** put fails exactly when a character of the rest of the key is not a letter. */
  lemma {:induction false} PutOutcome(x: Trie, key: string, val: int, d: nat)
    requires WellFormed(x) && d <= |key|
    ensures PutAt(x, key, val, d).Success? <==> LettersFrom(key, d)
    decreases |key| - d
  {
    if d < |key| {
      var y := if x.Nil? then EmptyNode() else x;
      var c := Slot(key[d]);
      if 0 <= c < R {
        PutOutcome(y.next[c], key, val, d + 1);
      }
    }
  }

  /** get below Nil finds nothing. */
  lemma GetNil(w: string, d: nat)
    requires d <= |w|
    ensures GetAt(Nil, w, d) == Success(Nil)
  {
  }

  /** After put(key, v), get(w) over letters finds v when w is key and what it found
      before otherwise, and finds a node exactly where it found one before or where w
      is a prefix of key. */
  lemma {:induction false} GetAfterPutAt(x: Trie, key: string, w: string, v: int, d: nat)
    requires WellFormed(x) && d <= |key| && d <= |w| && LettersFrom(key, d) && LettersFrom(w, d)
    ensures PutAt(x, key, v, d).Success?
    ensures Val(GetAt(PutAt(x, key, v, d).value, w, d)) ==
            if SameFrom(key, w, d) then v else Val(GetAt(x, w, d))
    ensures IsNode(GetAt(PutAt(x, key, v, d).value, w, d)) ==
            (IsNode(GetAt(x, w, d)) || PrefixFrom(w, key, d))
    decreases |key| - d
  {
    PutOutcome(x, key, v, d);
    var y := if x.Nil? then EmptyNode() else x;
    var p := PutAt(x, key, v, d).value;
    if d == |key| {
      if d < |w| {
        var c' := Slot(w[d]);
        assert GetAt(p, w, d) == GetAt(y.next[c'], w, d + 1);
        assert !SameFrom(key, w, d) && !PrefixFrom(w, key, d);
        if x.Nil? {
          GetNil(w, d + 1);
        }
      }
    } else {
      var c := Slot(key[d]);
      var child := PutAt(y.next[c], key, v, d + 1).value;
      assert p == Node(y.val, y.next[c := child]);
      if d < |w| {
        var c' := Slot(w[d]);
        if c' == c {
          assert w[d] == key[d];
          GetAfterPutAt(y.next[c], key, w, v, d + 1);
          assert SameFrom(key, w, d) == SameFrom(key, w, d + 1);
          assert PrefixFrom(w, key, d) == PrefixFrom(w, key, d + 1);
          if x.Nil? {
            GetNil(w, d + 1);
          }
        } else {
          assert w[d] != key[d];
          assert !SameFrom(key, w, d) && !PrefixFrom(w, key, d);
          if x.Nil? {
            GetNil(w, d + 1);
          }
        }
      } else {
        assert !SameFrom(key, w, d) && PrefixFrom(w, key, d);
      }
    }
  }

  /** The whole-key form of GetAfterPutAt. */
  lemma GetAfterPut(x: Trie, key: string, w: string, v: int)
    requires WellFormed(x) && AllLetters(key) && AllLetters(w)
    ensures PutAt(x, key, v, 0).Success?
    ensures Val(GetAt(PutAt(x, key, v, 0).value, w, 0)) == if w == key then v else Val(GetAt(x, w, 0))
    ensures IsNode(GetAt(PutAt(x, key, v, 0).value, w, 0)) == (IsNode(GetAt(x, w, 0)) || w <= key)
  {
    GetAfterPutAt(x, key, w, v, 0);
    assert SameFrom(key, w, 0) <==> w == key;
    assert PrefixFrom(w, key, 0) <==> w <= key by {
      if PrefixFrom(w, key, 0) {
        assert w == key[..|w|];
      }
    }
  }

  /** The value get returns for a word of a map: the stored value, or -1 when the word
      is absent or stored with 0. */
  function ValueOf(contents: map<string, int>, w: string): int
  {
    if w in contents && contents[w] != 0 then contents[w] else -1
  }

  /** Some word of contents starts with p. */
  ghost predicate Extends(contents: map<string, int>, p: string)
  {
    exists w :: w in contents && p <= w
  }

  /** The trie rooted at root holds exactly contents. */
  ghost predicate Holds(root: Trie, contents: map<string, int>)
  {
    WellFormed(root) &&
    (forall w :: w in contents ==> AllLetters(w)) &&
    (forall w {:trigger GetAt(root, w, 0)} :: AllLetters(w) ==> Val(GetAt(root, w, 0)) == if w in contents then contents[w] else 0) &&
    (forall p {:trigger GetAt(root, p, 0)} :: AllLetters(p) ==> (IsNode(GetAt(root, p, 0)) <==> Extends(contents, p)))
  }

  /** The empty trie holds no words. */
  lemma HoldsEmpty()
    ensures Holds(Nil, map[])
  {
  }

  /** After put, get finds the new value at key and the old values elsewhere. */
  lemma PutValues(root: Trie, contents: map<string, int>, key: string, v: int)
    requires WellFormed(root) && AllLetters(key)
    requires forall w :: AllLetters(w) ==> Val(GetAt(root, w, 0)) == if w in contents then contents[w] else 0
    ensures PutAt(root, key, v, 0).Success?
    ensures forall w :: AllLetters(w) ==>
      Val(GetAt(PutAt(root, key, v, 0).value, w, 0)) == if w in contents[key := v] then contents[key := v][w] else 0
  {
    GetAfterPut(root, key, key, v);
    forall w | AllLetters(w)
      ensures Val(GetAt(PutAt(root, key, v, 0).value, w, 0)) == if w in contents[key := v] then contents[key := v][w] else 0
    {
      GetAfterPut(root, key, w, v);
    }
  }

  /** After put, the nodes are exactly on the prefixes of the old words and of key. */
  lemma PutPrefixes(root: Trie, contents: map<string, int>, key: string, v: int)
    requires WellFormed(root) && AllLetters(key)
    requires forall q :: AllLetters(q) ==> (IsNode(GetAt(root, q, 0)) <==> Extends(contents, q))
    ensures PutAt(root, key, v, 0).Success?
    ensures forall q :: AllLetters(q) ==>
      (IsNode(GetAt(PutAt(root, key, v, 0).value, q, 0)) <==> Extends(contents[key := v], q))
  {
    GetAfterPut(root, key, key, v);
    var p := PutAt(root, key, v, 0).value;
    var c := contents[key := v];
    forall q | AllLetters(q)
      ensures IsNode(GetAt(p, q, 0)) <==> Extends(c, q)
    {
      GetAfterPut(root, key, q, v);
      PrefixCase(root, p, contents, key, v, q);
    }
  }

  /** One prefix q of PutPrefixes. */
  lemma PrefixCase(root: Trie, p: Trie, contents: map<string, int>, key: string, v: int, q: string)
    requires WellFormed(root) && WellFormed(p) && AllLetters(q)
    requires IsNode(GetAt(root, q, 0)) <==> Extends(contents, q)
    requires IsNode(GetAt(p, q, 0)) == (IsNode(GetAt(root, q, 0)) || q <= key)
    ensures IsNode(GetAt(p, q, 0)) <==> Extends(contents[key := v], q)
  {
    var c := contents[key := v];
    if IsNode(GetAt(p, q, 0)) {
      if q <= key {
        assert key in c;
      } else {
        var w :| w in contents && q <= w;
        assert w in c;
      }
    }
    if Extends(c, q) {
      var w :| w in c && q <= w;
      if w != key {
        assert w in contents;
      }
    }
  }

  /** put of a word of letters makes the trie hold that word with its value as well. */
  lemma PutHolds(root: Trie, contents: map<string, int>, key: string, v: int)
    requires Holds(root, contents) && AllLetters(key)
    ensures PutAt(root, key, v, 0).Success?
    ensures Holds(PutAt(root, key, v, 0).value, contents[key := v])
  {
    PutValues(root, contents, key, v);
    PutPrefixes(root, contents, key, v);
  }

  /** The trie of BoggleSolver: a root node that put replaces. */
  class BoggleTrie {
    var root: Trie
    /** The words put so far, with their values. */
    ghost var Contents: map<string, int>

    /** The nodes hold exactly Contents: every word put is made of letters, get on a
        word finds its value, and a node exists exactly on the prefixes of the words. */
    ghost predicate Valid()
      reads this
    {
      Holds(root, Contents)
    }

    constructor ()
      ensures Valid() && Contents == map[]
    {
      root := Nil;
      Contents := map[];
      HoldsEmpty();
    }

    /** put(key, value): a key with a character outside A-Z fails and changes nothing. */
    method Put(key: string, value: int) returns (r: Result<(), Error>)
      requires Valid()
      modifies this
      ensures Valid()
      ensures r.Success? <==> AllLetters(key)
      ensures r.Failure? ==> r.error == IndexOutOfBounds && Contents == old(Contents)
      ensures r.Success? ==> Contents == old(Contents)[key := value]
    {
      PutOutcome(root, key, value, 0);
      var p := PutAt(root, key, value, 0);
      if p.Failure? {
        assert !LettersFrom(key, 0);
        return Failure(p.error);
      }
      PutHolds(root, Contents, key, value);
      root := p.value;
      Contents := Contents[key := value];
      return Success(());
    }

    /** get(key): the value stored at key, -1 for a null key, an absent key or a key
        stored with 0. */
    function Get(key: Option<string>): (r: Result<int, Error>)
      reads this
      requires Valid()
      ensures key.None? ==> r == Success(-1)
      ensures key.Some? && AllLetters(key.value) ==> r == Success(ValueOf(Contents, key.value))
      ensures r.Failure? ==> key.Some? && !AllLetters(key.value) && r.error == IndexOutOfBounds
    {
      if key.None? then Success(-1)
      else
        match GetAt(root, key.value, 0)
        case Failure(e) => Failure(e)
        case Success(x) => Success(if x.Node? && x.val != 0 then x.val else -1)
    }

    /** contains(key): get does not answer -1. */
    function Contains(key: string): (r: Result<bool, Error>)
      reads this
      requires Valid()
      ensures AllLetters(key) ==> r == Success(ValueOf(Contents, key) != -1)
      ensures r.Failure? ==> !AllLetters(key) && r.error == IndexOutOfBounds
    {
      match Get(Some(key))
      case Failure(e) => Failure(e)
      case Success(v) => Success(v != -1)
    }

    /** hasPrefix(prefix): some word put so far starts with prefix. */
    function HasPrefix(prefix: string): (r: Result<bool, Error>)
      reads this
      requires Valid()
      ensures AllLetters(prefix) ==> r == Success(exists w :: w in Contents && prefix <= w)
      ensures r.Failure? ==> !AllLetters(prefix) && r.error == IndexOutOfBounds
    {
      match GetAt(root, prefix, 0)
      case Failure(e) => Failure(e)
      case Success(x) => Success(x.Node?)
    }
  }

  /** The first position of s from st on holding a character above ' ', or |s|. */
  function TrimStart(s: string, st: nat): (r: nat)
    requires st <= |s|
    ensures st <= r <= |s| && (r < |s| ==> s[r] > ' ')
    ensures forall k :: st <= k < r ==> s[k] <= ' '
    decreases |s| - st
  {
    if st < |s| && s[st] <= ' ' then TrimStart(s, st + 1) else st
  }

  /** One past the last position of s[st..len] holding a character above ' ', or st. */
  function TrimEnd(s: string, st: nat, len: nat): (r: nat)
    requires st <= len <= |s|
    ensures st <= r <= len && (st < r ==> s[r - 1] > ' ')
    ensures forall k :: r <= k < len ==> s[k] <= ' '
    decreases len
  {
    if st < len && s[len - 1] <= ' ' then TrimEnd(s, st, len - 1) else len
  }

  /** String.trim: drops the characters at or below ' ' from both ends. */
  function Trim(s: string): (r: string)
    ensures r != [] ==> r[0] > ' ' && r[|r| - 1] > ' '
    ensures (s == [] || (s[0] > ' ' && s[|s| - 1] > ' ')) ==> r == s
    ensures exists st, en :: 0 <= st <= en <= |s| && r == s[st..en] && Blank(s, 0, st) && Blank(s, en, |s|)
  {
    var st := TrimStart(s, 0);
    var len := TrimEnd(s, st, |s|);
    assert s != [] && s[0] > ' ' ==> st == 0;
    assert s[st..len] == s[st..len] && Blank(s, 0, st) && Blank(s, len, |s|);
    s[st..len]
  }

  /** Every character of s[lo..hi] is at or below ' '. */
  ghost predicate Blank(s: string, lo: int, hi: int)
  {
    forall k :: lo <= k < hi && 0 <= k < |s| ==> s[k] <= ' '
  }

  /** String.trim is the one slice of s that drops only characters at or below ' ' and
      starts and ends above ' ' (or is empty). */
  lemma TrimIsSlice(s: string, st: int, en: int)
    requires 0 <= st <= en <= |s| && Blank(s, 0, st) && Blank(s, en, |s|)
    requires st < en ==> s[st] > ' ' && s[en - 1] > ' '
    ensures Trim(s) == s[st..en]
  {
    var st0 := TrimStart(s, 0);
    if st < en {
      assert st0 == st;
      assert TrimEnd(s, st0, |s|) == en;
    } else {
      assert st0 == |s|;
    }
  }

  /** String.toUpperCase on the ASCII letters a-z. */
  function UpperCase(s: string): (r: string)
    ensures |r| == |s|
    ensures forall i :: 0 <= i < |s| ==> r[i] == if 'a' <= s[i] <= 'z' then (s[i] as int - 32) as char else s[i]
  {
    seq(|s|, i requires 0 <= i < |s| => if 'a' <= s[i] <= 'z' then (s[i] as int - 32) as char else s[i])
  }

  /** The form in which words are stored and looked up: trimmed, then upper-cased. */
  function Normalize(word: string): (r: string)
    ensures |r| == |Trim(word)| <= |word|
    ensures forall k :: 0 <= k < |r| ==> !('a' <= r[k] <= 'z')
  {
    UpperCase(Trim(word))
  }

  /** A word of capital letters is its own normal form. */
  lemma NormalizeLetters(w: string)
    requires AllLetters(w)
    ensures Normalize(w) == w
  {
    if w != [] {
      assert IsLetter(w[0]) && IsLetter(w[|w| - 1]);
    }
    assert Trim(w) == w;
  }

  /** Trimming and upper-casing once more changes nothing. */
  lemma NormalizeIdempotent(word: string)
    ensures Normalize(Normalize(word)) == Normalize(word)
  {
    var u := Normalize(word);
    assert Trim(u) == u;
    assert UpperCase(u) == u;
  }

  /** getScore: the points of a word of the given length. */
  function GetScore(wordLength: int): (r: int)
    ensures r == 0 <==> 0 <= wordLength <= 2
    ensures 0 <= r <= 11
    ensures wordLength >= 8 ==> r == 11
  {
    if 0 <= wordLength <= 2 then 0
    else if wordLength == 3 || wordLength == 4 then 1
    else if wordLength == 5 then 2
    else if wordLength == 6 then 3
    else if wordLength == 7 then 5
    else 11
  }

  /** A longer word never scores less. */
  lemma GetScoreMonotone(a: nat, b: nat)
    requires a <= b
    ensures GetScore(a) <= GetScore(b)
  {
  }

  /** charToString: a board die shows "QU" for Q and the letter itself otherwise. */
  function CharToString(c: char): (s: string)
    ensures |s| >= 1 && s[0] == c
    ensures |s| == 2 <==> c == 'Q'
    ensures |s| == 2 ==> s[1] == 'U'
    ensures c != 'Q' ==> s == [c]
  {
    if c == 'Q' then "QU" else [c]
  }

  /** Every word of a dictionary in normal form. */
  function NormalizeAll(dictionary: seq<string>): (r: seq<string>)
    ensures |r| == |dictionary| && forall i :: 0 <= i < |r| ==> r[i] == Normalize(dictionary[i])
  {
    seq(|dictionary|, i requires 0 <= i < |dictionary| => Normalize(dictionary[i]))
  }

  /** The words of a list, each with the position after its last occurrence. */
  function DictionaryMap(words: seq<string>): map<string, int>
    decreases |words|
  {
    if words == [] then map[]
    else DictionaryMap(words[..|words| - 1])[words[|words| - 1] := |words|]
  }

  /** The dictionary map holds exactly the words of the list. */
  lemma {:induction false} DictionaryMapDomain(words: seq<string>, w: string)
    ensures w in DictionaryMap(words) <==> w in words
    decreases |words|
  {
    if words != [] {
      var n := |words| - 1;
      DictionaryMapDomain(words[..n], w);
      assert words == words[..n] + [words[n]];
    }
  }

  /** A word of the dictionary map is held with one more than the last position where it
      occurs. */
  lemma {:induction false} DictionaryMapValue(words: seq<string>, w: string)
    requires w in DictionaryMap(words)
    ensures 1 <= DictionaryMap(words)[w] <= |words|
    ensures words[DictionaryMap(words)[w] - 1] == w
    ensures w !in words[DictionaryMap(words)[w]..]
    decreases |words|
  {
    var n := |words| - 1;
    var front := words[..n];
    if words[n] != w {
      DictionaryMapValue(front, w);
      var v := DictionaryMap(front)[w];
      assert front[v - 1] == words[v - 1];
      assert words[v..] == front[v..] + [words[n]];
    }
  }

  /** Extending the prefix of a list by one word puts that word with its position plus one. */
  lemma DictionaryMapSnoc(words: seq<string>, i: int)
    requires 0 <= i < |words|
    ensures DictionaryMap(words[..i + 1]) == DictionaryMap(words[..i])[words[i] := i + 1]
  {
    assert words[..i + 1][..i] == words[..i];
  }

  /** The part of BoggleSolver this model covers: its trie of dictionary words. */
  class BoggleSolver {
    const trie: BoggleTrie

    ghost predicate Valid()
      reads this, trie
    {
      trie.Valid()
    }

    /** The words scoreOf accepts: those stored with a value other than 0 and -1. */
    ghost function Words(): set<string>
      reads this, trie
    {
      set w | w in trie.Contents && ValueOf(trie.Contents, w) != -1
    }

    constructor (t: BoggleTrie)
      requires t.Valid()
      ensures Valid() && trie == t
    {
      trie := t;
    }

    /** scoreOf(word): the points of the normalized word when the dictionary holds it,
        0 otherwise. */
    function ScoreOf(word: string): (r: Result<int, Error>)
      reads this, trie
      requires Valid()
      ensures AllLetters(Normalize(word)) ==>
        r == Success(if Normalize(word) in Words() then GetScore(|Normalize(word)|) else 0)
      ensures r.Failure? ==> !AllLetters(Normalize(word)) && r.error == IndexOutOfBounds
    {
      var w := Normalize(word);
      match trie.Contains(w)
      case Failure(e) => Failure(e)
      case Success(found) => Success(if found then GetScore(|w|) else 0)
    }

    /** The filter of getAllValidWords: the words of the board longer than two letters
        that score. */
    method FilterValidWords(allWords: seq<string>) returns (validWords: set<string>)
      requires Valid()
      requires forall i :: 0 <= i < |allWords| ==> AllLetters(allWords[i])
      ensures forall w :: w in validWords <==> w in allWords && |w| > 2 && w in Words()
    {
      validWords := {};
      for i := 0 to |allWords|
        invariant forall w :: w in validWords <==> w in allWords[..i] && |w| > 2 && w in Words()
      {
        var word := allWords[i];
        NormalizeLetters(word);
        var score := ScoreOf(word);
        FilterStep(validWords, allWords, i, Words(), |word| > 2 && score.Success? && score.value > 0);
        if |word| > 2 && score.Success? && score.value > 0 {
          validWords := validWords + {word};
        }
      }
      assert allWords[..|allWords|] == allWords;
    }
  }

  /** One step of the filter: the word at i is added exactly when it is kept. */
  lemma FilterStep(valid: set<string>, all: seq<string>, i: int, words: set<string>, keep: bool)
    requires 0 <= i < |all|
    requires forall w :: w in valid <==> w in all[..i] && |w| > 2 && w in words
    requires keep <==> |all[i]| > 2 && all[i] in words
    ensures forall w :: w in (if keep then valid + {all[i]} else valid) <==> w in all[..i + 1] && |w| > 2 && w in words
  {
    assert all[..i + 1] == all[..i] + [all[i]];
  }

  /** Every one of the first n words is made of the letters A-Z. */
  ghost predicate LetteredUpTo(words: seq<string>, n: int)
  {
    forall k :: 0 <= k < n && k < |words| ==> AllLetters(words[k])
  }

  /** new BoggleSolver(dictionary): puts every trimmed, upper-cased word with its
      position plus one; a word with a character outside A-Z fails the construction. */
  method NewBoggleSolver(dictionary: seq<string>) returns (r: Result<BoggleSolver, Error>)
    ensures r.Success? <==> LetteredUpTo(NormalizeAll(dictionary), |dictionary|)
    ensures r.Failure? ==> r.error == IndexOutOfBounds
    ensures r.Success? ==> r.value.Valid() && r.value.trie.Contents == DictionaryMap(NormalizeAll(dictionary))
  {
    var trie := new BoggleTrie();
    ghost var words := NormalizeAll(dictionary);
    for i := 0 to |dictionary|
      invariant trie.Valid() && trie.Contents == DictionaryMap(words[..i])
      invariant LetteredUpTo(words, i)
    {
      var word := Normalize(dictionary[i]);
      assert word == words[i];
      var p := trie.Put(word, i + 1);
      if p.Failure? {
        assert !AllLetters(words[i]);
        return Failure(p.error);
      }
      assert AllLetters(words[i]);
      DictionaryMapSnoc(words, i);
    }
    assert words[..|dictionary|] == words;
    var solver := new BoggleSolver(trie);
    return Success(solver);
  }

  /** A solver built from a dictionary scores exactly the dictionary's normalized words. */
  lemma SolverWords(solver: BoggleSolver, dictionary: seq<string>, w: string)
    requires solver.Valid() && solver.trie.Contents == DictionaryMap(NormalizeAll(dictionary))
    ensures w in solver.Words() <==> w in NormalizeAll(dictionary)
  {
    var words := NormalizeAll(dictionary);
    DictionaryMapDomain(words, w);
    if w in DictionaryMap(words) {
      DictionaryMapValue(words, w);
    }
  }
}

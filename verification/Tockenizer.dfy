/** The string tokenizer: it walks a text of `tail` characters, one token up to
    the next separator at a time.  Positions are offsets from the head of the
    text; the cell at `tail` is readable too (the terminator of a C string, or
    whatever follows a counted string). */
module Tockenizers {
  import opened Options

  /** sizeof(m_sep), with room for the terminator. */
  const MAX_SEPARATORS: nat := 32

  const NUL: char := '\0'

  /** strchr(m_sep, c): the terminator of m_sep is found too. */
  predicate IsSeparator(sep: string, c: char)
  {
    c == NUL || c in sep
  }

  datatype Token = Token(text: string, sepBy: char)

  // ----- the tokens of a text -----

  function FindEnd(text: string, tail: nat, sep: string, p: nat): (e: nat)
    requires tail <= |text|
    ensures p <= e && (p <= tail ==> e <= tail)
    ensures forall k :: p <= k < e ==> k < tail && text[k] != '\0' && text[k] !in sep
    ensures e < tail ==> text[e] == '\0' || text[e] in sep
    decreases tail - p
  {
    if p < tail && !IsSeparator(sep, text[p]) then FindEnd(text, tail, sep, p + 1) else p
  }

  /** The tokens from p on. */
  function Tokens(text: string, tail: nat, sep: string, p: nat): seq<Token>
    requires p < tail ==> tail < |text|
    decreases tail - p
  {
    if p >= tail then [] else
      var e := FindEnd(text, tail, sep, p);
      [Token(text[p..e], text[e])] + Tokens(text, tail, sep, e + 1)
  }

  /** Tokens and separators put together again. */
  function Rebuild(tokens: seq<Token>): string
  {
    if tokens == [] then "" else tokens[0].text + [tokens[0].sepBy] + Rebuild(tokens[1..])
  }

  /** The number of separators; the terminator is always one. */
  function Separators(sep: string, s: string): nat
  {
    if s == "" then 0 else (if s[0] == '\0' || s[0] in sep then 1 else 0) + Separators(sep, s[1..])
  }

  /** The last token is ended by the end of the text, not by a separator. */
  predicate OpenEnded(text: string, tail: nat, sep: string, p: nat)
    requires tail <= |text|
  {
    p < tail && text[tail - 1] != '\0' && text[tail - 1] !in sep
  }

  /** The text from p on, cut after the separator at e. */
  lemma CutAt(text: string, tail: nat, p: nat, e: nat, extra: string)
    requires p <= e < tail <= |text|
    ensures text[p..tail] == text[p..e] + ([text[e]] + text[e + 1..tail])
    ensures text[p..tail] + extra == text[p..e] + [text[e]] + (text[e + 1..tail] + extra)
  {
    assert text[p..tail] == text[p..e] + ([text[e]] + text[e + 1..tail]);
  }

  function Beyond(text: string, tail: nat, sep: string, p: nat): string
    requires tail < |text|
  {
    if OpenEnded(text, tail, sep, p) then [text[tail]] else []
  }

  lemma TokensStep(text: string, tail: nat, sep: string, p: nat)
    requires p < tail < |text|
    ensures var e := FindEnd(text, tail, sep, p);
            var tokens := Tokens(text, tail, sep, p);
            && tokens != [] && tokens[0] == Token(text[p..e], text[e]) && tokens[1..] == Tokens(text, tail, sep, e + 1)
            && tokens == [Token(text[p..e], text[e])] + tokens[1..] && |tokens| == 1 + |tokens[1..]|
            && (e < tail ==> Beyond(text, tail, sep, p) == Beyond(text, tail, sep, e + 1))
            && (e == tail ==> Beyond(text, tail, sep, p) == [text[tail]] && tokens[1..] == [])
  {
  }

  lemma RebuildFirst(text: string, tail: nat, p: nat, e: nat, rest: seq<Token>, extra: string)
    requires p <= e < tail <= |text| && Rebuild(rest) == text[e + 1..tail] + extra
    ensures Rebuild([Token(text[p..e], text[e])] + rest) == text[p..tail] + extra
  {
    CutAt(text, tail, p, e, extra);
    assert ([Token(text[p..e], text[e])] + rest)[1..] == rest;
  }

  lemma RebuildLast(text: string, tail: nat, p: nat)
    requires p <= tail < |text|
    ensures Rebuild([Token(text[p..tail], text[tail])]) == text[p..tail] + [text[tail]]
  {
    var last := [Token(text[p..tail], text[tail])];
    assert last[1..] == [] && Rebuild([]) == "";
  }

  lemma LosslessStep(text: string, tail: nat, sep: string, p: nat, e: nat, rest: seq<Token>)
    requires p <= e < tail < |text| && e == FindEnd(text, tail, sep, p) && rest == Tokens(text, tail, sep, e + 1)
    requires Rebuild(rest) == text[e + 1..tail] + Beyond(text, tail, sep, e + 1)
    ensures Rebuild(Tokens(text, tail, sep, p)) == text[p..tail] + Beyond(text, tail, sep, p)
  {
    TokensStep(text, tail, sep, p);
    RebuildFirst(text, tail, p, e, rest, Beyond(text, tail, sep, e + 1));
  }

  lemma LosslessLast(text: string, tail: nat, sep: string, p: nat)
    requires p < tail < |text| && FindEnd(text, tail, sep, p) == tail
    ensures Rebuild(Tokens(text, tail, sep, p)) == text[p..tail] + Beyond(text, tail, sep, p)
  {
    TokensStep(text, tail, sep, p);
    RebuildLast(text, tail, p);
  }

  /** Nothing is lost: the tokens with their separators are the text, followed
      by the cell at its end iff the last token is ended by it. */
  lemma {:induction false} Lossless(text: string, tail: nat, sep: string, p: nat)
    requires tail < |text| && p <= tail
    ensures Rebuild(Tokens(text, tail, sep, p)) == text[p..tail] + Beyond(text, tail, sep, p)
    decreases tail - p
  {
    if p < tail {
      var e := FindEnd(text, tail, sep, p);
      if e < tail {
        Lossless(text, tail, sep, e + 1);
        LosslessStep(text, tail, sep, p, e, Tokens(text, tail, sep, e + 1));
      } else {
        LosslessLast(text, tail, sep, p);
      }
    }
  }

  lemma {:induction false} SeparatorsConcat(sep: string, a: string, b: string)
    ensures Separators(sep, a + b) == Separators(sep, a) + Separators(sep, b)
  {
    if a == "" {
      assert a + b == b;
    } else {
      assert (a + b)[1..] == a[1..] + b;
      SeparatorsConcat(sep, a[1..], b);
    }
  }

  lemma {:induction false} NoSeparators(sep: string, s: string)
    requires forall k :: 0 <= k < |s| ==> s[k] != '\0' && s[k] !in sep
    ensures Separators(sep, s) == 0
  {
    if s != "" {
      NoSeparators(sep, s[1..]);
    }
  }

  /** One token for each separator, and one more iff the text ends without. */
  lemma {:induction false} TokenCount(text: string, tail: nat, sep: string, p: nat)
    requires tail < |text| && p <= tail
    ensures |Tokens(text, tail, sep, p)|
            == Separators(sep, text[p..tail]) + |Beyond(text, tail, sep, p)|
    decreases tail - p
  {
    if p < tail {
      var e := FindEnd(text, tail, sep, p);
      TokensStep(text, tail, sep, p);
      SeparatorsStep(text, tail, sep, p, e);
      if e < tail {
        TokenCount(text, tail, sep, e + 1);
        assert Tokens(text, tail, sep, p)[1..] == Tokens(text, tail, sep, e + 1);
      }
    }
  }

  lemma SeparatorsStep(text: string, tail: nat, sep: string, p: nat, e: nat)
    requires p <= e <= tail < |text|
    requires forall k :: p <= k < e ==> text[k] != '\0' && text[k] !in sep
    requires e < tail ==> text[e] == '\0' || text[e] in sep
    ensures Separators(sep, text[p..tail]) == if e < tail then 1 + Separators(sep, text[e + 1..tail]) else 0
  {
    NoSeparators(sep, text[p..e]);
    if e < tail {
      var rest := [text[e]] + text[e + 1..tail];
      CutAt(text, tail, p, e, []);
      SeparatorsConcat(sep, text[p..e], rest);
      assert rest[1..] == text[e + 1..tail];
    }
  }

  /** The places of the separators in a text. */
  ghost function Places(sep: string, s: string): set<nat>
  {
    set k: nat | k < |s| && (s[k] == '\0' || s[k] in sep)
  }

  lemma {:induction false} SeparatorsCounted(sep: string, s: string)
    ensures Separators(sep, s) == |Places(sep, s)|
  {
    if s != "" {
      var n := |s| - 1;
      assert s == s[..n] + [s[n]] && [s[n]][1..] == "";
      SeparatorsConcat(sep, s[..n], [s[n]]);
      SeparatorsCounted(sep, s[..n]);
      var here := if s[n] == '\0' || s[n] in sep then {n} else {};
      assert Places(sep, s) == Places(sep, s[..n]) + here;
    }
  }

  /** No token contains a separator, and every token but the last is followed
      by one. */
  ghost predicate Proper(sep: string, tokens: seq<Token>)
  {
    && (forall i, k :: 0 <= i < |tokens| && 0 <= k < |tokens[i].text| ==>
          tokens[i].text[k] != '\0' && tokens[i].text[k] !in sep)
    && (forall i :: 0 <= i < |tokens| - 1 ==> tokens[i].sepBy == '\0' || tokens[i].sepBy in sep)
  }

  lemma ProperFirst(sep: string, first: Token, rest: seq<Token>)
    requires Proper(sep, rest)
    requires forall k :: 0 <= k < |first.text| ==> first.text[k] != '\0' && first.text[k] !in sep
    requires rest == [] || first.sepBy == '\0' || first.sepBy in sep
    ensures Proper(sep, [first] + rest)
  {
    var all := [first] + rest;
    assert forall i :: 1 <= i < |all| ==> all[i] == rest[i - 1];
  }

  lemma {:induction false} TokensProper(text: string, tail: nat, sep: string, p: nat)
    requires tail < |text| && p <= tail
    ensures Proper(sep, Tokens(text, tail, sep, p))
    decreases tail - p
  {
    if p < tail {
      var e := FindEnd(text, tail, sep, p);
      TokensStep(text, tail, sep, p);
      if e < tail {
        TokensProper(text, tail, sep, e + 1);
      } else {
        assert Tokens(text, tail, sep, p)[1..] == [];
      }
      ProperFirst(sep, Token(text[p..e], text[e]), Tokens(text, tail, sep, p)[1..]);
    }
  }

  /** A text has only one proper split, so the tokens are that split. */
  lemma {:induction false} SplitUnique(sep: string, ts: seq<Token>, us: seq<Token>)
    requires Proper(sep, ts) && Proper(sep, us) && Rebuild(ts) == Rebuild(us)
    ensures ts == us
  {
    if ts != [] && us != [] {
      var r, t, u := Rebuild(ts), ts[0], us[0];
      assert r[|t.text|] == t.sepBy && r[..|t.text|] == t.text && r[|t.text| + 1..] == Rebuild(ts[1..]);
      assert r[|u.text|] == u.sepBy && r[..|u.text|] == u.text && r[|u.text| + 1..] == Rebuild(us[1..]);
      FirstEnds(sep, ts, us);
      FirstEnds(sep, us, ts);
      SplitUnique(sep, ts[1..], us[1..]);
      assert ts == [t] + ts[1..] && us == [u] + us[1..];
    }
  }

  lemma FirstEnds(sep: string, ts: seq<Token>, us: seq<Token>)
    requires Proper(sep, ts) && Proper(sep, us) && ts != [] && us != [] && Rebuild(ts) == Rebuild(us)
    ensures |ts[0].text| >= |us[0].text|
  {
    var r, i, j := Rebuild(ts), |ts[0].text|, |us[0].text|;
    assert r[i] == ts[0].sepBy;
    assert forall k :: 0 <= k < j ==> r[k] == us[0].text[k];
    if |ts| == 1 {
      assert ts[1..] == [];
    }
  }

  function Texts(tokens: seq<Token>): seq<string>
  {
    seq(|tokens|, i requires 0 <= i < |tokens| => tokens[i].text)
  }

  lemma TextsFirst(tokens: seq<Token>)
    requires tokens != []
    ensures Texts(tokens) == [tokens[0].text] + Texts(tokens[1..])
  {
  }

  /** The text with a cell behind it: the one in memory if it can be read, and
      else an imagined one. */
  function Padded(text: string, tail: nat): (padded: string)
    requires tail <= |text|
    ensures tail < |padded| && padded[..tail] == text[..tail]
    ensures tail < |text| ==> padded == text
  {
    if tail < |text| then text else text + [NUL]
  }

  lemma {:induction false} PaddedEnd(text: string, tail: nat, sep: string, p: nat)
    requires tail <= |text|
    ensures FindEnd(Padded(text, tail), tail, sep, p) == FindEnd(text, tail, sep, p)
    decreases tail - p
  {
    if p < tail {
      assert Padded(text, tail)[..tail][p] == text[..tail][p];
      PaddedEnd(text, tail, sep, p + 1);
    }
  }

  // ----- the tokenizer -----

  class Tockenizer {
    var text: string // the memory from m_head on
    var head: nat    // the address of m_head; the next three count from it
    var tail: nat
    var pos: nat
    var end: int
    var sep: string  // m_sep, without its terminator

    constructor ()
      ensures Valid() && tail == 0 && sep == ""
    {
      text, head, tail, pos, end, sep := "", 0, 0, 0, 0, "";
    }

    /** The text can be read; the cell behind it need not be there. */
    ghost predicate Bound()
      reads this
    {
      tail <= |text| && |sep| < MAX_SEPARATORS
    }

    ghost predicate Valid()
      reads this
    {
      Bound() && end == FindEnd(text, tail, sep, pos)
    }

    /** The tokens still to come.  The separator of one that ends with the text
        is the cell behind it. */
    ghost function Rest(): seq<Token>
      reads this
      requires Valid()
    {
      Tokens(Padded(text, tail), tail, sep, pos)
    }

    predicate HasMoreTokens()
      reads this
    {
      pos < tail
    }

    method FindNextToken()
      requires Bound()
      modifies this`end
      ensures Valid()
      ensures pos <= end && (pos <= tail ==> end <= tail)
      ensures forall k :: pos <= k < end ==> text[k] != '\0' && text[k] !in sep
      ensures end < tail ==> text[end] == '\0' || text[end] in sep
    {
      var p := pos;
      while p < tail
        invariant pos <= p && FindEnd(text, tail, sep, pos) == FindEnd(text, tail, sep, p)
      {
        if IsSeparator(sep, text[p]) {
          break;
        }
        p := p + 1;
      }
      end := p;
    }

    /** Too long a list leaves no separators at all. */
    method SetSeparators(separators: string) returns (ok: bool)
      modifies this`sep
      ensures ok <==> |separators| < MAX_SEPARATORS
      ensures sep == if ok then separators else ""
    {
      if |separators| >= MAX_SEPARATORS {
        sep := "";
        return false;
      }
      sep := separators;
      return true;
    }

    /** Binds slen characters found at an address; a null string is an empty
        text.  A refused separator list leaves the pointer m_end where it was,
        in the text bound before, so the next token is undefined until
        rewind. */
    method Bind(str: Option<string>, at: nat, slen: nat, separators: Option<string>) returns (ok: bool)
      requires Bound() && (str.Some? ==> slen <= |str.value|)
      modifies this
      ensures Bound() && pos == 0
      ensures text == (if str.Some? then str.value else "") && tail == if str.Some? then slen else 0
      ensures head == if str.Some? then at else 0
      ensures ok <==> separators.None? || |separators.value| < MAX_SEPARATORS
      ensures sep == if separators.None? then old(sep) else if ok then separators.value else ""
      ensures ok ==> Valid() && Rest() == Tokens(Padded(text, tail), tail, sep, 0)
      ensures !ok ==> head + end == old(head + end)
    {
      text := if str.Some? then str.value else "";
      tail := if str.Some? then slen else 0;
      var newHead := if str.Some? then at else 0;
      end := head + end - newHead; // the same pointer
      head := newHead;
      pos := 0;
      if separators.Some? {
        var accepted := SetSeparators(separators.value);
        if !accepted {
          return false;
        }
      }
      FindNextToken();
      return true;
    }

    /** A null-terminated string is bound with its length; its terminator is
        the cell at the end. */
    method BindString(str: string, at: nat, separators: Option<string>) returns (ok: bool)
      requires Bound() && NUL !in str
      modifies this
      ensures Bound() && pos == 0 && text == str + [NUL] && tail == |str| && head == at
      ensures ok <==> separators.None? || |separators.value| < MAX_SEPARATORS
      ensures ok ==> Valid() && sep == (if separators.None? then old(sep) else separators.value)
      ensures if ok then Rest() == Tokens(text, tail, sep, 0) else head + end == old(head + end)
    {
      ok := Bind(Some(str + [NUL]), at, |str|, separators);
    }

    /** Takes the next token.  A buffer that cannot hold it with a terminator
        refuses the call and leaves everything as it was.  Only a caller that
        asks for the separator needs the cell behind the token to be there. */
    method GetNext(buf: array?<char>, bufSize: nat, wantSep: bool)
        returns (ok: bool, sepBy: Option<char>, tokenLen: nat)
      requires Valid() && (buf != null ==> bufSize <= buf.Length)
      requires wantSep && pos < tail && (buf != null ==> bufSize > end - pos) ==> end < |text|
      modifies this`pos, this`end, buf
      ensures Valid()
      ensures ok <==> old(Rest()) != [] && (buf != null ==> bufSize > |old(Rest())[0].text|)
      ensures ok ==> tokenLen == |old(Rest())[0].text| && Rest() == old(Rest())[1..]
      ensures sepBy == if ok && wantSep then Some(old(Rest())[0].sepBy) else None
      ensures ok && buf != null ==>
        buf[..] == old(Rest())[0].text + [NUL] + old(buf[..])[tokenLen + 1..]
      ensures !ok ==> pos == old(pos) && end == old(end) && (buf != null ==> buf[..] == old(buf[..]))
      ensures ok ==> pos > old(pos)
    {
      CurrentToken();
      sepBy := None;
      ok, tokenLen := Fill(buf, bufSize);
      if ok {
        sepBy := Advance(wantSep);
      }
    }

    /** Copies the token, unless there is none or no room for it. */
    method Fill(buf: array?<char>, bufSize: nat) returns (ok: bool, tokenLen: nat)
      requires Valid() && (buf != null ==> bufSize <= buf.Length)
      modifies buf
      ensures pos < tail ==> pos <= end <= |text|
      ensures ok <==> pos < tail && (buf != null ==> bufSize > end - pos)
      ensures ok ==> tokenLen == end - pos
      ensures ok && buf != null ==> buf[..] == text[pos..end] + [NUL] + old(buf[..])[tokenLen + 1..]
      ensures !ok && buf != null ==> buf[..] == old(buf[..])
    {
      if pos >= tail {
        return false, 0;
      }
      assert pos <= end <= tail;
      tokenLen := end - pos;
      if buf != null {
        if bufSize <= tokenLen {
          return false, tokenLen;
        }
        Copy(buf, tokenLen);
        assert pos + tokenLen == end;
      }
      return true, tokenLen;
    }

    /** The token under the position. */
    lemma CurrentToken()
      requires Valid()
      ensures Rest() == [] <==> pos >= tail
      ensures pos < tail ==>
        && 0 <= pos <= end <= tail <= |text|
        && |Rest()[0].text| == end - pos && Rest()[0].text == text[pos..end]
        && (end < |text| ==> Rest()[0].sepBy == text[end])
        && Rest()[1..] == Tokens(Padded(text, tail), tail, sep, end + 1)
    {
      PaddedEnd(text, tail, sep, pos);
      if pos < tail {
        assert Padded(text, tail)[pos..end] == text[pos..end];
      }
    }

    method Advance(wantSep: bool) returns (sepBy: Option<char>)
      requires Valid() && pos < tail && (wantSep ==> end < |text|)
      modifies this`pos, this`end
      ensures Valid() && pos > old(pos)
      ensures old(Rest()) != [] && Rest() == old(Rest())[1..]
      ensures sepBy == if wantSep then Some(old(Rest())[0].sepBy) else None
    {
      CurrentToken();
      sepBy := if wantSep then Some(text[end]) else None;
      pos := end + 1;
      FindNextToken();
    }

    /** memcpy of the token, and its terminator. */
    method Copy(buf: array<char>, n: nat)
      requires pos + n <= |text| && n < buf.Length
      modifies buf
      ensures buf[..] == text[pos..pos + n] + [NUL] + old(buf[..])[n + 1..]
    {
      for i := 0 to n
        invariant forall k :: 0 <= k < i ==> buf[k] == text[pos + k]
        invariant forall k :: i <= k < buf.Length ==> buf[k] == old(buf[k])
      {
        buf[i] := text[pos + i];
      }
      buf[n] := NUL;
    }

    method Rewind()
      requires Bound()
      modifies this`pos, this`end
      ensures Valid() && pos == 0 && Rest() == Tokens(Padded(text, tail), tail, sep, 0)
    {
      pos := 0;
      FindNextToken();
    }

    /** The tokens read so far and those to come are all; the cell behind the
        text can be read if it is needed. */
    ghost predicate Reading(tokens: seq<Token>, all: seq<Token>)
      reads this
    {
      Valid() && tokens + Rest() == all && (HasMoreTokens() ==> tail < |text|)
    }

    method ReadOne(buf: array<char>, tokens: seq<Token>, ghost all: seq<Token>) returns (more: seq<Token>)
      requires Reading(tokens, all) && HasMoreTokens() && buf.Length > tail
      modifies this`pos, this`end, buf
      ensures Reading(more, all) && pos > old(pos)
    {
      ghost var rest := Rest();
      CurrentToken();
      var ok, sepBy, n := GetNext(buf, buf.Length, true);
      assert buf[..n] == rest[0].text;
      more := tokens + [Token(buf[..n], sepBy.value)];
      assert rest == [rest[0]] + Rest();
    }

    /** The client loop over has_more_tokens and get_next, with a buffer that
        holds the whole text, sees exactly the tokens with their separators. */
    method ReadAll(buf: array<char>) returns (tokens: seq<Token>)
      requires Valid() && buf.Length > tail && (HasMoreTokens() ==> tail < |text|)
      modifies this`pos, this`end, buf
      ensures Valid() && tokens == old(Rest()) && !HasMoreTokens()
    {
      tokens := [];
      ghost var all := Rest();
      while HasMoreTokens()
        invariant Reading(tokens, all)
        decreases tail - pos
      {
        tokens := ReadOne(buf, tokens, all);
      }
      CurrentToken();
    }

    ghost predicate ReadingTexts(texts: seq<string>, all: seq<string>)
      reads this
    {
      Valid() && texts + Texts(Rest()) == all
    }

    method ReadText(buf: array<char>, texts: seq<string>, ghost all: seq<string>) returns (more: seq<string>)
      requires ReadingTexts(texts, all) && HasMoreTokens() && buf.Length > tail
      modifies this`pos, this`end, buf
      ensures ReadingTexts(more, all) && pos > old(pos)
    {
      ghost var rest := Rest();
      CurrentToken();
      TextsFirst(rest);
      var ok, sepBy, n := GetNext(buf, buf.Length, false);
      assert buf[..n] == rest[0].text;
      more := texts + [buf[..n]];
      assert texts + Texts(rest) == more + Texts(Rest());
    }

    /** The same loop without separators, on any text: it needs no cell behind. */
    method ReadTexts(buf: array<char>) returns (texts: seq<string>)
      requires Valid() && buf.Length > tail
      modifies this`pos, this`end, buf
      ensures Valid() && texts == Texts(old(Rest())) && !HasMoreTokens()
    {
      texts := [];
      ghost var all := Texts(Rest());
      while HasMoreTokens()
        invariant ReadingTexts(texts, all)
        decreases tail - pos
      {
        texts := ReadText(buf, texts, all);
      }
      CurrentToken();
    }
  }

  /** Binding, reading all tokens, rewinding and reading them again gives the
      same tokens: no text holds a terminator or a separator, each but the last
      is ended by one, there are as many as separators and one more iff the
      string ends without, and put together they are the string, and its only
      proper split. */
  method SplitTwice(str: string, at: nat, separators: string) returns (ok: bool, first: seq<Token>, again: seq<Token>)
    requires '\0' !in str
    ensures ok <==> |separators| < 32
    ensures ok ==> again == first
    ensures ok ==> forall i, k :: 0 <= i < |first| && 0 <= k < |first[i].text| ==>
      first[i].text[k] != '\0' && first[i].text[k] !in separators
    ensures ok ==> forall i :: 0 <= i < |first| - 1 ==> first[i].sepBy == '\0' || first[i].sepBy in separators
    ensures ok ==> Rebuild(first) == str + if OpenString(str, separators) then ['\0'] else []
    ensures ok ==> |first| == |Places(separators, str)| + if OpenString(str, separators) then 1 else 0
    ensures ok ==> forall ts :: Proper(separators, ts) && Rebuild(ts) == Rebuild(first) ==> ts == first
  {
    var tok := new Tockenizer();
    first, again := [], [];
    ok := tok.BindString(str, at, Some(separators));
    if ok {
      var buf := new char[|str| + 1];
      SplitOfString(str, separators);
      first := tok.ReadAll(buf);
      tok.Rewind();
      again := tok.ReadAll(buf);
    }
  }

  /** The string is not empty and its last character is not a separator. */
  predicate OpenString(str: string, separators: string)
  {
    str != "" && str[|str| - 1] !in separators
  }

  lemma SplitOfString(str: string, sep: string)
    requires '\0' !in str
    ensures var tokens := Tokens(str + ['\0'], |str|, sep, 0);
            && Proper(sep, tokens)
            && Rebuild(tokens) == str + (if OpenString(str, sep) then ['\0'] else [])
            && |tokens| == |Places(sep, str)| + (if OpenString(str, sep) then 1 else 0)
            && forall ts :: Proper(sep, ts) && Rebuild(ts) == Rebuild(tokens) ==> ts == tokens
  {
    var text := str + ['\0'];
    Lossless(text, |str|, sep, 0);
    TokenCount(text, |str|, sep, 0);
    SeparatorsCounted(sep, str);
    TokensProper(text, |str|, sep, 0);
    assert text[0..|str|] == str;
    var tokens := Tokens(text, |str|, sep, 0);
    forall ts | Proper(sep, ts) && Rebuild(ts) == Rebuild(tokens) ensures ts == tokens {
      SplitUnique(sep, ts, tokens);
    }
  }
}

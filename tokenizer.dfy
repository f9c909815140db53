// The tokenizer of html_parser.c as the C code runs it: one left-to-right
// pass over the input with a text buffer, writing tokens into an array that
// is reallocated at twice its capacity whenever it is full.

module Tokenizer {
  import TokenSpec

  /** The token array, its count and its capacity: the three values the C
      tokenizer receives by pointer and updates in place. */
  class TokenList {
    var data: array<TokenSpec.Token>
    var count: nat
    var capacity: nat

    /** The count and capacity agree with the array. */
    ghost predicate Valid()
      reads this
    {
      0 < capacity == data.Length && count <= capacity
    }

    /** The tokens stored so far. */
    ghost function Contents(): seq<TokenSpec.Token>
      reads this, data
      requires Valid()
    {
      data[..count]
    }

    /** An empty token array of the given capacity (the caller allocates 16). */
    constructor (capacity: nat)
      requires capacity > 0
      ensures Valid() && Contents() == [] && this.capacity == capacity && fresh(data)
    {
      data := new TokenSpec.Token[capacity];
      count := 0;
      this.capacity := capacity;
    }

    /** Stores t after the tokens already held, first doubling the capacity
        (a reallocation that keeps the stored tokens) when the array is full. */
    method Append(t: TokenSpec.Token)
      requires Valid()
      modifies this, data
      ensures Valid()
      ensures Contents() == old(Contents()) + [t]
      ensures capacity == if old(count) >= old(capacity) then 2 * old(capacity) else old(capacity)
      ensures data == old(data) || fresh(data)
    {
      if count >= capacity {
        capacity := capacity * 2;
        var grown := new TokenSpec.Token[capacity];
        forall i | 0 <= i < count {
          grown[i] := data[i];
        }
        data := grown;
      }
      data[count] := t;
      count := count + 1;
    }
  }

  /** The Text token the buffered characters are flushed as, if any. */
  function Pending(buffer: string): (r: seq<TokenSpec.Token>)
    ensures |r| <= 1 && (r == [] <==> buffer == [])
  {
    if |buffer| > 0 then [TokenSpec.Text(buffer)] else []
  }

  /** The tag opened by html[lt] == '<', as the loop reads it: a '/' right
      after '<' makes an end tag, the name runs up to the first '>' or the end
      of the input, and next is the position after that '>' (|html| + 1 when
      the input ended first, since the '>' is skipped either way). */
  function TagAt(html: string, lt: nat): (r: (TokenSpec.Token, nat))
    requires lt < |html| && html[lt] == '<'
    ensures lt < r.1 <= |html| + 1
    ensures !r.0.Text? && (r.0.EndTag? <==> lt + 1 < |html| && html[lt + 1] == '/')
    ensures r.1 <= |html| ==> html[r.1 - 1] == '>'
  {
    var isEnd := lt + 1 < |html| && html[lt + 1] == '/';
    var start := lt + if isEnd then 2 else 1;
    var stop := start + TokenSpec.SpanNot(html[start..], '>');
    (if isEnd then TokenSpec.EndTag(html[start..stop]) else TokenSpec.StartTag(html[start..stop]), stop + 1)
  }

  /** The scanning loop as a function: acc holds the tokens stored so far and
      buffer the text read since the last flush; at the end of the input the
      buffer is flushed. Tokens once stored stay as they are. */
  function Scan(html: string, pos: nat, buffer: string, acc: seq<TokenSpec.Token>): (r: seq<TokenSpec.Token>)
    requires pos <= |html| + 1
    ensures |acc| <= |r| && r[..|acc|] == acc
    decreases |html| + 1 - pos
  {
    if pos >= |html| then acc + Pending(buffer)
    else if html[pos] == '<' then
      var (tag, next) := TagAt(html, pos);
      Scan(html, next, [], acc + Pending(buffer) + [tag])
    else
      Scan(html, pos + 1, buffer + [html[pos]], acc)
  }

  /** Buffered text ended by a '<' is flushed before the tag is scanned. */
  lemma FlushBeforeTag(html: string, mark: nat, lt: nat)
    requires mark <= lt < |html| && html[lt] == '<'
    requires TokenSpec.SpanNot(html[mark..], '<') >= lt - mark
    ensures TokenSpec.Tokenize(html[mark..]) == Pending(html[mark..lt]) + TokenSpec.Tokenize(html[lt..])
  {
    var s := html[mark..];
    var k := lt - mark;
    assert s[k] == '<';
    TokenSpec.SpanNotSkips(s, '<');
    TokenSpec.SpanNotIs(s, '<', k);
    if k == 0 {
      assert s == html[lt..];
    } else {
      assert s[..k] == html[mark..lt] && s[k..] == html[lt..];
      assert s[0] != '<';
      assert TokenSpec.Tokenize(s) == [TokenSpec.Text(s[..k])] + TokenSpec.Tokenize(s[k..]);
    }
  }

  /** Buffered text at the end of the input is flushed as the last token. */
  lemma FlushAtEnd(html: string, mark: nat)
    requires mark <= |html|
    requires TokenSpec.SpanNot(html[mark..], '<') >= |html| - mark
    ensures TokenSpec.Tokenize(html[mark..]) == Pending(html[mark..])
  {
    if mark < |html| {
      var s := html[mark..];
      assert s[..|s|] == s;
    }
  }

  /** The name and the rest of the tag whose body starts at html[start],
      read from the input's suffix and from the whole input. */
  lemma NameSlices(html: string, start: nat)
    requires start <= |html|
    ensures
      var n := TokenSpec.SpanNot(html[start..], '>');
      && html[start..][..n] == html[start..start + n]
      && (n < |html[start..]| ==> html[start..][n + 1..] == html[start + n + 1..])
  {
  }

  /** TagAt reads the same tag as the recursive definition's ScanTag, and
      leaves the input after the '>' (nothing when the input ended first). */
  lemma TagAtScans(html: string, lt: nat)
    requires lt < |html| && html[lt] == '<'
    ensures TokenSpec.ScanTag(html[lt..])
         == (TagAt(html, lt).0, if TagAt(html, lt).1 <= |html| then html[TagAt(html, lt).1..] else [])
  {
    var s := html[lt..];
    if lt + 1 < |html| && html[lt + 1] == '/' {
      assert s[1] == '/' && s[2..] == html[lt + 2..];
      EndTagScans(html, lt, s);
    } else {
      assert !(|s| > 1 && s[1] == '/') && s[1..] == html[lt + 1..];
      StartTagScans(html, lt, s);
    }
  }

  /** The end-tag case of TagAtScans: the name starts after "</". */
  lemma EndTagScans(html: string, lt: nat, s: string)
    requires lt + 1 < |html| && html[lt] == '<' && html[lt + 1] == '/'
    requires s == html[lt..] && s[2..] == html[lt + 2..]
    ensures TokenSpec.ScanTag(s) == (TagAt(html, lt).0, if TagAt(html, lt).1 <= |html| then html[TagAt(html, lt).1..] else [])
  {
    var body := html[lt + 2..];
    var n := TokenSpec.SpanNot(body, '>');
    NameSlices(html, lt + 2);
    assert TagAt(html, lt) == (TokenSpec.EndTag(body[..n]), lt + 2 + n + 1);
    assert TokenSpec.ScanTag(s) == (TokenSpec.EndTag(body[..n]), if n < |body| then body[n + 1..] else []) by {
      assert |s| > 1 && s[1] == '/';
    }
  }

  /** The start-tag case of TagAtScans: the name starts after "<". */
  lemma StartTagScans(html: string, lt: nat, s: string)
    requires lt < |html| && html[lt] == '<' && !(lt + 1 < |html| && html[lt + 1] == '/')
    requires s == html[lt..] && s[1..] == html[lt + 1..]
    ensures TokenSpec.ScanTag(s) == (TagAt(html, lt).0, if TagAt(html, lt).1 <= |html| then html[TagAt(html, lt).1..] else [])
  {
    var body := html[lt + 1..];
    var n := TokenSpec.SpanNot(body, '>');
    NameSlices(html, lt + 1);
    assert TagAt(html, lt) == (TokenSpec.StartTag(body[..n]), lt + 1 + n + 1);
    assert TokenSpec.ScanTag(s) == (TokenSpec.StartTag(body[..n]), if n < |body| then body[n + 1..] else []) by {
      assert !(|s| > 1 && s[1] == '/');
    }
  }

  /** The tag opened at html[lt] is the next token of html[lt..], and the
      tokens after it are those of the input after its '>'. */
  lemma TagSplit(html: string, lt: nat)
    requires lt < |html| && html[lt] == '<'
    ensures TagAt(html, lt).1 <= |html|
        ==> TokenSpec.Tokenize(html[lt..]) == [TagAt(html, lt).0] + TokenSpec.Tokenize(html[TagAt(html, lt).1..])
    ensures TagAt(html, lt).1 == |html| + 1 ==> TokenSpec.Tokenize(html[lt..]) == [TagAt(html, lt).0]
  {
    TagAtScans(html, lt);
  }

  /** A character other than '<' extends the buffered text. */
  lemma TextStep(html: string, mark: nat, pos: nat)
    requires mark <= pos < |html| && html[pos] != '<'
    requires TokenSpec.SpanNot(html[mark..], '<') >= pos - mark
    ensures TokenSpec.SpanNot(html[mark..], '<') >= pos + 1 - mark
    ensures html[mark..pos + 1] == html[mark..pos] + [html[pos]]
  {
    assert html[mark..][pos - mark] == html[pos];
  }

  /** From any point of the loop, with buffer the text read since mark, the
      loop produces the tokens stored so far followed by those of html[mark..]. */
  lemma {:induction false} ScanFrom(html: string, mark: nat, pos: nat, buffer: string, acc: seq<TokenSpec.Token>)
    requires mark <= pos <= |html| && buffer == html[mark..pos]
    requires TokenSpec.SpanNot(html[mark..], '<') >= pos - mark
    ensures Scan(html, pos, buffer, acc) == acc + TokenSpec.Tokenize(html[mark..])
    decreases |html| - pos, 1
  {
    if pos == |html| {
      assert buffer == html[mark..];
      FlushAtEnd(html, mark);
    } else if html[pos] == '<' {
      ScanFromTag(html, mark, pos, buffer, acc);
    } else {
      TextStep(html, mark, pos);
      ScanFrom(html, mark, pos + 1, buffer + [html[pos]], acc);
    }
  }

  /** The case of ScanFrom where the loop is at a '<'. */
  lemma {:induction false} ScanFromTag(html: string, mark: nat, pos: nat, buffer: string, acc: seq<TokenSpec.Token>)
    requires mark <= pos < |html| && buffer == html[mark..pos] && html[pos] == '<'
    requires TokenSpec.SpanNot(html[mark..], '<') >= pos - mark
    ensures Scan(html, pos, buffer, acc) == acc + TokenSpec.Tokenize(html[mark..])
    decreases |html| - pos, 0
  {
    var (tag, next) := TagAt(html, pos);
    var flushed := acc + Pending(buffer) + [tag];
    var rest := if next <= |html| then TokenSpec.Tokenize(html[next..]) else [];
    assert TokenSpec.Tokenize(html[mark..]) == Pending(buffer) + ([tag] + rest) by {
      FlushBeforeTag(html, mark, pos);
      TagSplit(html, pos);
    }
    assert Scan(html, pos, buffer, acc) == flushed + rest by {
      assert Scan(html, pos, buffer, acc) == Scan(html, next, [], flushed);
      if next <= |html| {
        assert html[next..next] == [];
        ScanFrom(html, next, next, [], flushed);
      }
    }
    TokenSpec.Assoc(acc, Pending(buffer), [tag] + rest);
    TokenSpec.Assoc(acc + Pending(buffer), [tag], rest);
  }

  /** The loop started on an empty buffer and no tokens yields exactly the
      tokens of the recursive definition. */
  lemma ScanTokenize(html: string)
    ensures Scan(html, 0, [], []) == TokenSpec.Tokenize(html)
  {
    assert html[0..] == html && html[0..0] == [];
    ScanFrom(html, 0, 0, [], []);
  }

  /** Reads a tag name from html[start..]: the characters up to the first '>'
      or, when there is none, to the end; stop is where reading stopped. */
  method ReadTagName(html: string, start: nat) returns (name: string, stop: nat)
    requires start <= |html|
    ensures stop == start + TokenSpec.SpanNot(html[start..], '>')
    ensures stop <= |html| && name == html[start..stop]
  {
    name, stop := "", start;
    while stop < |html| && html[stop] != '>'
      invariant start <= stop <= |html|
      invariant name == html[start..stop]
      invariant forall k :: start <= k < stop ==> html[k] != '>'
    {
      name := name + [html[stop]];
      stop := stop + 1;
    }
    ghost var s := html[start..];
    assert forall i :: 0 <= i < stop - start ==> s[i] == html[start + i];
    TokenSpec.SpanNotIs(s, '>', stop - start);
  }

  /** Stores the buffered text, if there is any, as a Text token. */
  method Flush(buffer: string, tokens: TokenList)
    requires tokens.Valid()
    modifies tokens, tokens.data
    ensures tokens.Valid()
    ensures tokens.data == old(tokens.data) || fresh(tokens.data)
    ensures tokens.capacity >= old(tokens.capacity)
    ensures tokens.Contents() == old(tokens.Contents()) + Pending(buffer)
  {
    if |buffer| > 0 {
      tokens.Append(TokenSpec.Text(buffer));
    }
  }

  /** The tag branch after the flush: reads the tag opened at lt, stores it
      and returns where scanning resumes. */
  method EmitTag(html: string, lt: nat, tokens: TokenList) returns (tag: TokenSpec.Token, next: nat)
    requires lt < |html| && html[lt] == '<'
    requires tokens.Valid()
    modifies tokens, tokens.data
    ensures tokens.Valid()
    ensures tokens.data == old(tokens.data) || fresh(tokens.data)
    ensures tokens.capacity >= old(tokens.capacity)
    ensures (tag, next) == TagAt(html, lt)
    ensures tokens.Contents() == old(tokens.Contents()) + [tag]
  {
    // a '/' right after '<' makes an end tag
    var isEndTag := lt + 1 < |html| && html[lt + 1] == '/';
    var pos := lt + if isEndTag then 2 else 1;
    var tagName;
    tagName, pos := ReadTagName(html, pos);
    tag := if isEndTag then TokenSpec.EndTag(tagName) else TokenSpec.StartTag(tagName);
    next := pos + 1; // skip '>'
    tokens.Append(tag);
  }

  /** Scans html into tokens, overwriting what the token list held. */
  method Tokenize(html: string, tokens: TokenList)
    requires tokens.Valid()
    modifies tokens, tokens.data
    ensures tokens.Valid()
    ensures tokens.Contents() == TokenSpec.Tokenize(html)
    ensures tokens.capacity >= old(tokens.capacity)
  {
    tokens.count := 0;
    var pos: nat := 0;
    var buffer: string := "";
    ghost var done: seq<TokenSpec.Token> := [];
    while pos < |html|
      invariant tokens.Valid()
      invariant tokens.data == old(tokens.data) || fresh(tokens.data)
      invariant tokens.capacity >= old(tokens.capacity)
      invariant pos <= |html| + 1
      invariant tokens.Contents() == done
      invariant Scan(html, pos, buffer, done) == Scan(html, 0, [], [])
      decreases |html| + 1 - pos
    {
      var c := html[pos];
      if c == '<' {
        // flush any buffered text
        Flush(buffer, tokens);
        done := done + Pending(buffer);
        buffer := [];
        var tag;
        tag, pos := EmitTag(html, pos, tokens);
        done := done + [tag];
      } else {
        buffer := buffer + [c];
        pos := pos + 1;
      }
    }
    // flush remaining text
    Flush(buffer, tokens);
    ScanTokenize(html);
  }
}

# html_parser.c in Dafny

A model of the two-stage markup parser in `html_parser.c` and proofs about it.

The **tokenizer** (`tokenize`) makes one left-to-right pass over the input characters:
- Characters outside `<...>` collect in a text buffer.
- A `<` first flushes the buffered text as a `Text` token.
- It then reads a tag: a `/` right after `<` makes an `EndTag`, otherwise a `StartTag`. The name runs up to the first `>`, or to the end of the input when there is no `>`.
- At the end of the input, the remaining text is flushed.
- Tokens go into an array that is reallocated at twice its capacity when full.

The **tree builder** (`build_dom`) keeps a stack of open elements. The stack starts with a synthetic root element named `"document"`:
- A start tag creates an element, appends it to the top element and pushes it.
- Text creates a text node and appends it to the top element, without pushing it.
- An end tag pops the top of the stack whatever its name.
- Each node (`create_node`, `add_child`) holds a child array. The array starts at capacity 4 and doubles when full.

The files:
- `token_spec.dfy`, module `TokenSpec`. The tokens, and a recursive reference definition `Tokenize` of what the tokenizer produces. Also the re-emission of tokens as text (`Serialize`) and the properties relating the two.
- `tokenizer.dfy`, module `Tokenizer`. The tokenizer as the C code runs it. `TokenList` is a class for the token array with its count and capacity. `Tokenize` is a `while` loop, proved to produce exactly `TokenSpec.Tokenize`.
- `dom_spec.dfy`, module `DomSpec`. The builder as a pure state machine over a stack of frames. `BuildTree` is the tree it produces. This module also holds the pre-order, size, root and stack-height properties.
- `dom.dfy`, module `Dom`. The `Node` class and `BuildDom`, the loop over the tokens with an explicit stack of nodes. Every node carries ghost fields `Tree` and `Repr`. `BuildDom` is proved to return a root whose `Tree` is `DomSpec.BuildTree(tokens)`.

**The root can be popped.** The end-tag branch pops whenever the stack is not empty (`stack_size > 0`, html_parser.c:153). The parser's design calls for an end tag never to remove the root, but the code does remove it. The model follows the code:
- An end tag with only the root open closes the root (`DomSpec.Step` gives `Closed`).
- A start tag or text arriving after that would read `stack[-1]`. That is undefined behaviour in C, so `BuildDom` and `DomSpec.BuildTree` require `DomSpec.NoUnderflow(1, tokens)`. This precondition says no start tag or text arrives while the stack is empty.
- End tags after that point leave everything as it is, as the guard does in C.

`DomSpec.RootPopped` exhibits the popped root on the input `</a>x`. `DomSpec.GuardedRun` is the builder with the guard `stack_size > 1`, under which the root is never popped. `DomSpec.GuardedAgrees` shows that the two agree on every input that never pops the root. The rest of the model follows the code as written.

## Model

| member | source | states |
|---|---|---|
| TokenSpec.SpanNot | html_parser.c:107-109 | the name-reading loop stops within the input, and when it stops before the end it stops at the character it looks for |
| TokenSpec.SpanNotSkips | html_parser.c:107-109 | no character before the stopping point is the one looked for |
| TokenSpec.ScanTag | html_parser.c:100-111 | the token read at a `<` is a tag, never text; it is an end tag exactly when `/` follows the `<`; less input is left than was given |
| TokenSpec.ScanTagOk | html_parser.c:101-110 | a scanned tag name holds no `>`, and a start tag name never begins with `/` |
| TokenSpec.Tokenize | html_parser.c:76-138 | empty input gives no tokens and only empty input does; the first token is text exactly when the input does not start with `<`; there are never more tokens than characters |
| TokenSpec.TokenizeWellFormed | html_parser.c:85-137 | every Text token is non-empty and holds no `<`; tag names hold no `>`; no two Text tokens are adjacent, so adjacent tags have no empty text between them |
| TokenSpec.SerializeTokenize | html_parser.c:76-138 | when every `<` has a later `>`, re-emitting the tokens (`t`, `<n>`, `</n>`) gives back the input exactly |
| TokenSpec.TokenizeSerialize | html_parser.c:76-138 | tokenizing the re-emission of any well-formed token sequence gives that sequence back, so the tokenizer reaches every well-formed sequence |
| TokenSpec.TokenizeAppend | html_parser.c:82-125 | after a prefix in which every `<` is closed, the tokens of the rest starting at a `<` are appended unchanged |
| TokenSpec.TextRun | html_parser.c:120-123 | text without `<`, followed by nothing or by a `<`, is one Text token and the rest is scanned on its own |
| TokenSpec.TextAlone | html_parser.c:127-137 | input without `<` is exactly one Text token, flushed at the end |
| TokenSpec.TagRun | html_parser.c:100-119 | a re-emitted tag is scanned back as the same tag, followed by the tokens of what comes after it |
| TokenSpec.UnterminatedStartTag | html_parser.c:101-111 | a `<` with no later `>` makes the whole rest of the input one start tag name, and scanning ends |
| TokenSpec.UnterminatedEndTag | html_parser.c:101-111 | a `</` with no later `>` makes the whole rest of the input one end tag name |
| TokenSpec.TrailingOpen | html_parser.c:101-111 | a trailing `<` after a closed prefix adds `StartTag("")` |
| TokenSpec.TrailingClose | html_parser.c:101-111 | a trailing `</` after a closed prefix adds `EndTag("")` |
| Tokenizer.TokenList.constructor | html_parser.c:169-171 | a token array of the given positive capacity with no tokens stored |
| Tokenizer.TokenList.Append | html_parser.c:89-95 | the token is stored after the earlier ones, which stay as they were; the capacity doubles exactly when the array was full and is kept otherwise |
| Tokenizer.Pending | html_parser.c:87-98 | buffered text is flushed as at most one token, and as none exactly when the buffer is empty |
| Tokenizer.ReadTagName | html_parser.c:105-110 | the name is the input from its start up to the first `>` or the end of the input, and reading stops there |
| Tokenizer.Flush | html_parser.c:86-98 | the buffered text, if any, is stored as one Text token after the tokens already stored |
| Tokenizer.EmitTag | html_parser.c:100-119 | the tag read at the `<` is stored after the earlier tokens, and scanning resumes past its `>` |
| Tokenizer.TagAt | html_parser.c:100-111 | the token read at a `<` is a tag, never text, and an end tag exactly when `/` follows the `<`; scanning resumes just after the `>` that ends the name, or past the end of the input when there is none |
| Tokenizer.Scan | html_parser.c:82-137 | the loop only appends: the tokens stored before it runs are kept, in order, at the front of its result |
| Tokenizer.TagAtScans | html_parser.c:100-111 | the loop's tag reading agrees with the reference ScanTag: same token, and the input left is what follows the `>` (nothing when the input ended first) |
| Tokenizer.FlushBeforeTag | html_parser.c:85-98 | text buffered since the last token is flushed, before the tag, as the reference definition's next token |
| Tokenizer.FlushAtEnd | html_parser.c:127-137 | text buffered at the end of the input is the reference definition's last token |
| Tokenizer.ScanFrom | html_parser.c:82-137 | from any point of the loop, the loop yields the tokens stored so far followed by the reference tokens of the input from the last flush on |
| Tokenizer.ScanTokenize | html_parser.c:76-138 | the loop, started with no tokens and an empty buffer, yields exactly the reference tokens |
| Tokenizer.Tokenize | html_parser.c:76-138 | after the call the token array holds exactly `TokenSpec.Tokenize(html)`, whatever it held before; the capacity never shrinks |
| DomSpec.Init | html_parser.c:142-145 | the builder starts with one open element, the root |
| DomSpec.HeightAfter | html_parser.c:148-157 | one token changes the stack height as the count formula of `DomSpec.RunHeight` says for that token alone |
| DomSpec.NoUnderflowCounts | html_parser.c:148-157 | the precondition excluding reads of `stack[-1]` (lines 150 and 156) holds exactly when, before every start tag and text, the starting height plus the start tags so far outnumber the end tags so far |
| DomSpec.Step | html_parser.c:148-157 | each token keeps the builder well formed: a start tag adds one stack entry, an end tag removes one if there is one, text leaves the height alone |
| DomSpec.Run | html_parser.c:147-158 | the loop over all tokens keeps the builder well formed; once the root is closed the remaining tokens, all end tags, change nothing |
| DomSpec.TraceSteps | html_parser.c:147-158 | the states the loop goes through start at the root alone, each follows from the one before by a step that has an open element when it needs one, and the last is the result of the run |
| DomSpec.StepPreorder | html_parser.c:148-157 | a start tag or text adds exactly one node, at the end of the pre-order; an end tag adds none |
| DomSpec.RunPreorder | html_parser.c:147-158 | running tokens adds exactly their start tags and texts, in input order, to the pre-order |
| DomSpec.BuildTree | html_parser.c:141-162 | a pre-order walk of the built tree lists the root and then exactly the start tag and text tokens, in input order |
| DomSpec.BuildTreeRoot | html_parser.c:142 | the built tree's root is an element named "document" |
| DomSpec.BuildTreeSize | html_parser.c:141-161 | the tree has one node for the root plus one per start tag and per text token |
| DomSpec.RunHeight | html_parser.c:144-153 | the stack height after the tokens is 1 + #StartTag − #EndTag, or 0 once end tags have popped the root |
| DomSpec.EmptyStackOnlyEnds | html_parser.c:150-156 | once the stack is empty, only end tags can follow without reading below the stack |
| DomSpec.EndTagIgnoresName | html_parser.c:152-153 | an end tag acts the same whatever name it carries |
| DomSpec.EndKeepsTree | html_parser.c:152-153 | closing an element never changes the tree reachable from the root, since the element already is the last child of the one below |
| DomSpec.PlugPop | html_parser.c:153 | popping the top frame leaves the tree the frames stand for unchanged |
| DomSpec.CurrentPreorder | html_parser.c:147-158 | the pre-order of the tree reachable from the root is the pre-order of the open frames |
| DomSpec.RootPopped | html_parser.c:153 | with only the root open, an end tag pops the root, and text after it has no element to go into |
| DomSpec.GuardedRun | html_parser.c:153 | with the guard `stack_size > 1`, the builder is defined for every token sequence and the root stays at the bottom of the stack |
| DomSpec.GuardedAgrees | html_parser.c:153 | where the root is never popped, the guarded builder reaches the same open elements as the code as written |
| Dom.Node.constructor | html_parser.c:28-36 | a new node has the given name and kind, no children and capacity 4; it stands for a leaf tree |
| Dom.Node.AddChild | html_parser.c:39-45 | the child is stored after the earlier children, which are unchanged; the count grows by one; the capacity doubles exactly when the array was full; name, kind and tree are kept |
| Dom.PushElement | html_parser.c:148-151 | a start tag's new element becomes the last child of the top element and is pushed; the heap then stands for `DomSpec.Step` |
| Dom.Begin | html_parser.c:142-145 | the stack holds only a new "document" element, which stands for `DomSpec.Init` |
| Dom.AppendText | html_parser.c:154-156 | a new text node holding the token's text becomes the last child of the top element and the stack is unchanged; the heap then stands for `DomSpec.Step`, and the finished subtrees stay disjoint |
| Dom.CloseTop | html_parser.c:152-153 | an end tag pops the top element, which is then complete and stands for its finished subtree; the heap stands for `DomSpec.Step` |
| Dom.Apply | html_parser.c:147-157 | one iteration of the loop: the heap goes from standing for the builder state to standing for its step on the token |
| Dom.Consume | html_parser.c:142-158 | after the loop, the stack and the nodes stand for the builder after all the tokens; every object of the build is new and the finished subtrees are disjoint |
| Dom.CloseAll | html_parser.c:158-161 | the elements still open need no further change: the root already stands for the tree built so far |
| Dom.BuildDom | html_parser.c:141-162 | the returned root is a valid node tree whose tree is `DomSpec.BuildTree(tokens)`, so all of `DomSpec`'s tree properties hold of it; all its objects are new, and sibling subtrees share no object, so no node has two parents |

## Left out

- `print_tree` (html_parser.c:48-62) and `main` (html_parser.c:164-197): formatted output and a fixed sample input, with no behaviour to prove.
- `free_node` (html_parser.c:65-73): memory release. Dafny has no deallocation.
- The fixed-size buffers are modelled as unbounded sequences. These are the text buffer of 1024 characters (lines 79, 122), the tag name of 256 (lines 105, 108) and the stack of 128 entries (lines 143, 151). Their overruns are not modelled.
- `malloc`, `realloc` and `strdup` never fail in the model. `realloc` is a fresh array holding copies of the stored entries. `strdup` copies are string values.
- Strings are the characters before the terminating NUL, as `seq<char>`. `strlen` is `|html|`.
- Counts and capacities are unbounded `nat`s. The `int` overflow of a doubled capacity or of `child_count` is not modelled.
- Tokenizer.Tokenize: the C function receives the array, count and capacity by pointer. The model passes one `TokenList` object holding all three.
- Dom.BuildDom: the `Tree` and `Repr` fields and the closing of elements still open at the end are ghost bookkeeping. They let the returned root be compared with `DomSpec.BuildTree`. The C code just returns the root and frees the stack array.
- Dom.BuildDom: it requires `DomSpec.NoUnderflow(1, tokens)`, because after the root is popped the source reads `stack[-1]`. The result for such inputs is not modelled.
- Dom.Node.AddChild: the model requires a child array that agrees with the count and capacity. It does not model a `realloc` that moves or loses the stored pointers.

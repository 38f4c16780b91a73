# Verified models of Mapple's engines

Mapple is a freestanding hobby kernel. Most of it is port I/O and drawing; this project models the
self-contained engines inside it and proves what they are for. `dafny verify dfyconfig.toml`
checks everything (Dafny 4.11).

Code that works by changing things step by step is modelled by classes and methods with the same
fields, loops, branches and limits, each proved against a specification function; what the code
promises is then proved of the specification, for all inputs, all runs or all interleavings.

| Component | Files | Main results |
|---|---|---|
| Both interpreters: tokens, expressions | `Options`, `Int64`, `Lexing`, `Expressions`, `OnePass`, `SlotTable`, `Sets`, `Variables`, `Numerals`, `TextPieces`, `Values` | the reader accepts exactly an unambiguous grammar; evaluating while scanning is evaluating the tree; the variable tables are maps with a capacity; what the operators compute in integers |
| Mini-JS of the browser | `MiniJsSyntax`, `MiniJsSemantics`, `MiniJsSafety`, `MiniJs`, `MiniJsPrinting`, `MiniJsCorrect`, `Scripts` | a scan-and-run interpreter without a tree, which skips by running without effects and loops by moving its cursor back, does on every text what the tree of the text means; skipping and executing consume the same text; what some scripts print, for all numbers in them |
| `cc`, the C subset | `CcSyntax`, `CcSemantics`, `Cc`, `CcPrinting`, `Calculator`, `Programs` | every text is run as the program it stands for, or fails exactly when that program does; the calculator computes exactly the expressions of the grammar; the results of some texts, for all numbers in them |
| e1000 receive ring | `RxRing`, `E1000` | in every interleaving of driver and device, also between the statements of a call: exactly once, in order, no early refill, at most 31 pending |
| ARP and ICMP | `Bytes`, `InternetChecksum`, `Net`, `NetStack`, `NetWorld` | the frames built byte by byte and their checksums; two hosts over a lossy, duplicating, reordering wire never hold a wrong address and never see an unasked reply, and a ping gets through with every frame addressed as its receiver's card demands |
| File system | `Paths`, `Overlay`, `FileSystem` | path resolution is a stack machine with a composition law; the tables refine a map, and over every run that map is what the calls and their codes say |
| Line drawing, calendar | `Bresenham`, `Calendar` | half-pixel accuracy; the weekday counts the days of the calendar |
| Terminal scrollback | `TerminalLog`, `Terminal` | 256 rows scrolled by copying always show the last lines of an unbounded log |
| Window manager | `Desk`, `WindowManager` | invariant over every run, topmost window at a point, window switcher |
| Word wrap of the browser | `WordWrap`, `Page` | nothing lost, breaks only where needed, one possible layout |
| Text editor | `Zipper`, `Saving`, `Editor` | in-place editing with overlapping `memmove` refines a zipper over every key sequence; what a session leaves in the file system |

Conventions:

- C texts are sequences without NUL; looking past the end gives NUL, as in memory.
- `int64_t` arithmetic is fixed as 64-bit wrap-around. C leaves overflow undefined, and the division
  of the smallest value by -1 traps on the hardware; see "Left out".
- Division and remainder of possibly negative numbers truncate toward zero (`TruncDiv`, `TruncMod`).
- Clocks, the keyboard, the mouse and the other end of the wire are parameters.

Results that show the code doing less than one might expect:

- `MiniJsSemantics.DeadCodeCanFail`: an expression in a branch that is not taken is still evaluated,
  so an unknown name or a zero divisor there stops the script, as two programs show. The interpreter
  therefore meets an error exactly when this strict meaning does; the ordinary meaning is met by
  every script without an error, and `MiniJsSafety` gives a condition that can be checked beforehand.
- `MiniJs.Browser.ScriptRun`, `MiniJsCorrect.RunWithStrayBrace`: a `}` that belongs to no statement
  makes `script_run` spin for ever exactly if the statements before it run without an error;
  `LoneBraceSpins` gives the shortest such text.
- `Terminal.Term.Tab`, `TerminalLog.SixteenTabsStick`: a tab typed at column 120 or beyond never
  returns, and only there; sixteen tabs on a fresh terminal suffice.
- `WindowManager.Windows.SwitcherConfirm`: confirming the window switcher after the last window was
  closed divides by zero, and only then; `Desk.NothingToConfirm` is a run that leads there.
- `Desk.MaximizedSurvivesClosing`: the maximised flag of a closed window survives in its slot;
  `Desk.FreshButMaximized` is a run that shows it.
- `Desk.SwitcherOpensAtTheBottom`: the search for the focused window when the switcher opens always
  leads to the bottom of the order.
- `WordWrap.LettersKept`, `WordWrap.PageHoldsAll`: a letter is lost at every forced split of a word
  longer than 90 characters, and text is lost exactly when a page needs more than 200 lines;
  `WordWrap.LetterIsLost` and `WordWrap.LineIsLost` are a word and a text to which that happens.
- `Net.LearnThenFind`, `Net.RemembersAllExactly`: with all 8 entries in use by others, learning an
  address forgets the one in the first; nothing is forgotten exactly while at most 8 were heard;
  `Net.NineHosts` shows nine addresses of which the first is forgotten.
- `Saving.QuitKeepsText`, `Saving.LongTextIsLost`: the editor holds up to 8192 bytes, but the file
  system takes only 2048. Ctrl+X leaves a longer text unsaved, without a message; so it does where
  the file system refuses the path.
- `Overlay.RunKeepsParents`, `Overlay.ParentIsLost`: a directory made by mkdir can lose its parent,
  because a directory that exists only by its files goes with the last of them.

## Model

| member | source | states |
|---|---|---|
| Int64.TruncLaw | src/1.0/cc.c:191-196 | division and remainder truncate toward zero as section 6.5.5 of ISO/IEC 9899 demands: the quotient times the divisor plus the remainder gives the dividend, and the remainder is smaller than the divisor and has the sign of the dividend |
| Int64.WrapDigit | src/1.0/cc.c:137-141 | reading a numeral digit by digit in 64 bits gives the 64-bit wrap of its decimal value |
| Numerals.FormatInt | src/1.0/browser.cpp:823-848 | every 64-bit value, the smallest included, is written as its decimal numeral; the buffer of 24 characters never cuts it |
| Numerals.FirstDigit | src/1.0/cc.c:137-141 | the first digit of a numeral counts by the power of ten of the digits behind it: the weight of every digit |
| Numerals.TenDigits | src/1.0/cc.c:137-141 | the text 1234567890 writes that number |
| Numerals.NoLeadingZero | src/1.0/browser.cpp:823-848 | no numeral but that of 0 begins with 0 |
| Lexing.SkipTwice | src/1.0/browser.cpp:569-583 | skipping blanks and comments is idempotent, so looking again at a token never moves the cursor |
| Lexing.CharacterCodes | src/1.0/cc.c:86-102 | digits are the codes 48 to 57, letters 65 to 90, 97 to 122 and the underscore; a digit counts by its code less 48 |
| Lexing.SkipsExactly | src/1.0/browser.cpp:569-583 | blanks, tabs, carriage returns and line feeds are passed over, in scripts also semicolons; a comment is passed over up to the end of its line; anything else is not |
| Lexing.NameSizes | src/1.0/cc.c:86-102 | a name is all the letters, digits and underscores in a row, but at most 23 of them in scripts and 31 in programs |
| Lexing.KeywordStandsAlone | src/1.0/browser.cpp:595-608 | a word that stands in the text is the keyword exactly if no letter, digit or underscore follows |
| Expressions.ReadsExactlyTheGrammar | src/1.0/cc.c:148-220 | the reader accepts a text as tree e exactly if the text derives from the expr/term/factor grammar with tree e: sound and complete, left-associative, with precedence |
| Expressions.GrammarIsUnambiguous | src/1.0/cc.c:148-220 | no stretch of text has two trees |
| Expressions.ShowThenParse | src/1.0/cc.c:148-220 | an expression tree printed with as few brackets as possible is read back as the same tree |
| OnePass.ExprValIs | src/1.0/cc.c:148-220 | evaluating while scanning, without a tree, gives the value of the tree, and fails exactly if the text is no expression, a variable is unknown or a divisor is 0 |
| Values.SumKept | src/1.0/cc.c:213-214 | the value of a sum is the integer sum of the values where that fits 64 bits, and otherwise what 64 bits keep of it |
| Values.DifferenceKept | src/1.0/cc.c:213-214 | likewise the difference, left minus right |
| Values.ProductKept | src/1.0/cc.c:186-194 | likewise the product |
| Values.NegativeKept | src/1.0/cc.c:160-163 | likewise 0 minus the value for a minus sign |
| Values.SubtractThenAdd | src/1.0/cc.c:203-220 | (a - b) + b has the value of a, whatever 64 bits hold |
| Values.QuotientAndRemainder | src/1.0/cc.c:186-196 | for a divisor that is not 0, (a / b) * b + a % b is a, and a % b is smaller than b and has the sign of a (section 6.5.5 of ISO/IEC 9899); the one quotient that does not fit 64 bits is told apart; nothing is divided by 0 |
| SlotTable.WriteSlot | src/1.0/cc.c:104-128 | writing a slot of a table without repeated names changes exactly one entry of the map it stands for |
| SlotTable.FreeSlot | src/1.0/fs.c:268-279 | freeing a slot removes exactly its name from the map |
| SlotTable.FullMeansFull | src/1.0/cc.c:113-128 | a table has a free slot exactly while its map is smaller than the table |
| Variables.VarTable.Lookup | src/1.0/cc.c:104-112 | the search finds the slot of a name exactly if the map knows the name |
| Variables.VarTable.FindOrCreate | src/1.0/cc.c:104-128 | a new name gets 0 in a free slot; only with all slots taken by other names does it fail, and then nothing changes |
| Variables.VarTable.Declare | src/1.0/cc.c:233-248 | declaring is a map update, refused exactly when the name is new and the table full |
| Variables.VarTable.Assign | src/1.0/cc.c:281-292 | assigning is a map update, refused exactly when the name is unknown |
| MiniJsSemantics.StrictRefines | src/1.0/browser.cpp:859-898 | whenever the program does not fail, evaluating the expressions of skipped code as the interpreter does (strict) gives the same variables and output as the ordinary meaning |
| MiniJsSemantics.DeadCodeCanFail | src/1.0/browser.cpp:859-872 | two concrete programs whose ordinary meaning succeeds but which the interpreter rejects: in a branch that is not taken, the one names an unknown variable and the other divides by 0 |
| MiniJsSemantics.ComparisonsAreOrder | src/1.0/browser.cpp:734-753 | `<` holds exactly if something positive added to the left value gives the right one, `>` exactly if it is the other way round, and `<=`, `>=`, `==` and `!=` are what follows from that |
| MiniJsSemantics.DeclaresUpTo32 | src/1.0/browser.cpp:761-789 | a new name is declared while there are fewer than 32, and otherwise dropped |
| MiniJsSafety.SafeScriptRuns | src/1.0/browser.cpp:950-967 | a script that uses only names declared before, divides by nothing but nonzero numbers and declares at most 32 names never fails, in taken and in skipped code |
| MiniJs.Browser.JsSkip | src/1.0/browser.cpp:569-583 | the cursor moves to the next token; a semicolon is a blank |
| MiniJs.Browser.JsKw | src/1.0/browser.cpp:595-608 | a keyword is taken exactly if it stands there and no word character follows |
| MiniJs.Browser.JsFactor | src/1.0/browser.cpp:631-677 | the value and the end of a factor, or the error flag, as the grammar and the variables say |
| MiniJs.Browser.JsTerm | src/1.0/browser.cpp:679-703 | likewise for a term, whose loop folds from the left |
| MiniJs.Browser.JsExpr | src/1.0/browser.cpp:705-719 | likewise for an expression |
| MiniJs.Browser.JsCond | src/1.0/browser.cpp:721-753 | the truth of a comparison, or of a bare expression as different from 0, and its end |
| MiniJs.Browser.JsStmt | src/1.0/browser.cpp:755-928 | one statement, executed or skipped: without an error the cursor is at the end of the statement's text in both modes; executed, variables and output are those of the tree; skipped, neither changes; and the error flag is set exactly when the tree's meaning fails |
| MiniJs.Browser.JsWhile | src/1.0/browser.cpp:873-898 | the loop that moves the cursor back and scans its body again, at most 200 times, is the bounded loop of the tree, and ends behind its body |
| MiniJs.Browser.JsIf | src/1.0/browser.cpp:859-872 | a body that is not taken is skipped by running it without effects, and ends where it would have ended |
| MiniJs.Browser.JsBlockOrStmt | src/1.0/browser.cpp:930-948 | the same for a body, with or without braces; terminates although loops move the cursor back |
| MiniJs.Browser.ScriptRun | src/1.0/browser.cpp:950-967 | for every text: the variables, the output and the error flag of the statements up to its end, or up to a closing brace that belongs to none of them; in the second case the loop is endless exactly if those statements run without an error, and this is reported as stuck |
| MiniJsPrinting.ScriptRoundTrip | src/1.0/browser.cpp:755-967 | every script tree that can be written, printed as text, is read back as itself, also with a stray closing brace behind it |
| MiniJsCorrect.ExtentIsIndependent | src/1.0/browser.cpp:755-928 | from any two variable stores, two runs of a statement, each with or without effects, that raise no error end at the same place of the text |
| MiniJsCorrect.RunBoth | src/1.0/browser.cpp:755-928 | two interpreters at the same place, one executing and one executing or skipping, end at the same place without an error, and the one that skips changes no variable and prints nothing |
| MiniJsCorrect.PrintedScriptMeaning | src/1.0/browser.cpp:950-967 | the meaning of a printed script is that of its tree, loops bounded by 200 rounds |
| MiniJsCorrect.RunPrinted | src/1.0/browser.cpp:950-967 | running the text of a script gives the variables and the printed lines that the tree prescribes |
| MiniJsCorrect.RunWithStrayBrace | src/1.0/browser.cpp:955-963 | a closing brace behind a script makes script_run spin for ever exactly if the script has no error, whatever follows the brace |
| MiniJsCorrect.LoneBraceSpins | src/1.0/browser.cpp:955-963 | the shortest such text is the brace alone; behind a division by 0 it is not reached |
| Scripts.IfCompares | src/1.0/browser.cpp:721-753 | for all a and b, the text `if(a<b)print("y");`, with any of the six signs, prints y exactly if the integers are so related |
| Scripts.TextOutputs | src/1.0/browser.cpp:790-822 | a quoted text of up to 127 characters goes to the page by `print` and to the status bar by `alert` |
| Scripts.ValueOutputs | src/1.0/browser.cpp:790-855 | the value of an expression goes to the page by both |
| Scripts.OutputsInOrder | src/1.0/browser.cpp:950-967 | the texts of two statements appear in their order |
| Scripts.UnknownName | src/1.0/browser.cpp:899-928 | assigning to a name that was not declared is an error |
| Scripts.CountsTo200 | src/1.0/browser.cpp:873-898 | for all n, the text `var i=0;while(i<n){i=i+1;}print(i);` on its lines prints n, but 200 if n is larger |
| Cc.Interpreter.CcParseIdent | src/1.0/cc.c:86-102 | a name of at most 31 characters is taken exactly if a letter or underscore stands there |
| Cc.Interpreter.CcNumber | src/1.0/cc.c:132-146 | the wrapped decimal value of the digits, and an error exactly without digits |
| Cc.Interpreter.CcFactor | src/1.0/cc.c:148-178 | the value and end of a factor, or the error flag, as the grammar and the variables say; always moves on or raises the error |
| Cc.Interpreter.CcTerm | src/1.0/cc.c:180-201 | likewise for a term |
| Cc.Interpreter.CcExpr | src/1.0/cc.c:203-220 | likewise for an expression |
| Cc.Interpreter.CcStmt | src/1.0/cc.c:223-304 | one statement has the effect of its tree on variables and output, returns what it returns, and raises the sticky error exactly when the tree fails; it always moves on or raises the error |
| Cc.Interpreter.CcBlock | src/1.0/cc.c:307-323 | a block runs its statements up to the first return, as its tree does; terminates on every text |
| Cc.CcRun | src/1.0/cc.c:355-395 | on every text: the exit code, or the end, or the error, and the printed values, are those of the program the text stands for |
| Cc.CcEvalExpr | src/1.0/cc.c:326-340 | 0 is returned exactly if the whole text derives from the expression grammar and the expression has a value without variables, and then that value is stored |
| Cc.CalculatePrinted | src/1.0/cc.c:326-340 | every expression tree that can be written, printed and handed to cc_eval_expr, gets its own value, or none if it has none |
| Calculator.NumberReadsBack | src/1.0/cc.c:326-340 | the decimal numeral of every 64-bit value, negative ones and the smallest included, gives that value |
| Calculator.TwoNumbers | src/1.0/cc.c:326-340 | for all numerals a and b, the texts `a+b`, `a-b`, `a*b`, `a/b` and `a%b` give the integer result where it fits 64 bits, and no value if the divisor is 0 |
| Calculator.ProductFirst | src/1.0/cc.c:180-220 | `a+b*c` is a plus the product |
| Calculator.BracketsFirst | src/1.0/cc.c:148-178 | `(a+b)*c` is the sum times c |
| Calculator.FromTheLeft | src/1.0/cc.c:203-220 | `a-b-c` is (a - b) - c |
| Calculator.SpacingIsIgnored | src/1.0/cc.c:46-58 | blanks and comments before and between two numbers and the sign do not change the sum |
| CcPrinting.ProgramRoundTrip | src/1.0/cc.c:355-379 | every program tree that can be written, printed as `int main() { ... }`, is read back as itself |
| CcPrinting.RunPrinted | src/1.0/cc.c:355-379 | running the text of a program prints what the tree prints and ends with its exit code, or fails when the tree does |
| CcSemantics.DeclaresUpTo64 | src/1.0/cc.c:104-128 | a name can be declared again, and a new one while there are fewer than 64; a value can be assigned to a declared name alone |
| Programs.SampleRuns | src/1.0/cc.c:355-379 | for all n, the text of a program that declares x as n and y, adds 1 to x, prints y and x and returns x-y prints 0 and n + 1 and ends with n + 1 |
| Programs.DivisionFails | src/1.0/cc.c:186-196 | for all n, the program that prints n/0 fails |
| InternetChecksum.IpChecksum | src/1.0/net.c:35-49 | the code computes the complement of the folded word sum for every length; the 32-bit sum cannot wrap up to 131074 bytes |
| InternetChecksum.FoldIsRemainder | src/1.0/net.c:45-47 | folding ends in 16 bits, keeps the remainder modulo 65535, and gives 0 only for 0: the one's-complement sum |
| InternetChecksum.PassesExactly | src/1.0/net.c:35-49 | a buffer has checksum 0 exactly if its word sum is a positive multiple of 65535 |
| InternetChecksum.StoredChecksumPasses | src/1.0/net.c:138-159 | storing the checksum at an even offset where a zero word was makes the checksum of the buffer 0 |
| InternetChecksum.ChangedWordIsNoticed | src/1.0/net.c:35-49 | in a buffer that passes, replacing a 16-bit word is noticed exactly if the words differ modulo 65535 (or only zeros are left) |
| InternetChecksum.PassesByDivision | src/1.0/net.c:35-49 | a buffer of whole words passes exactly if the number that its bytes spell, most significant first, is a positive multiple of 65535 |
| InternetChecksum.KnownChecksums | src/1.0/net.c:35-49 | the example in section 3 of RFC 1071, and a buffer of one byte |
| RxRing.RunInv | src/1.0/e1000.c:153-165 | every interleaving of device and driver steps keeps: frame k is in slot k mod 32 from its arrival until the driver offers the slot again |
| RxRing.RingIsSafe | src/1.0/e1000.c:243-280 | in every reachable state the sound frames have come out once each and in order and at most 31 are pending, and between calls RDT is one behind rx_cur |
| RxRing.NoEarlyRefill | src/1.0/e1000.c:243-280 | no device step touches the buffer or the descriptor of a frame the driver has not handed back |
| RxRing.NothingIsMissed | src/1.0/e1000.c:243-280 | a call finds nothing exactly when nothing waits, and the device drops a frame exactly when 31 wait |
| RxRing.HandsOutTheRightPart | src/1.0/e1000.c:254-275 | of a sound frame the driver gets one piece, its first part: all of a frame of at most 60 bytes, all but the last 4 bytes of a longer one, and of a frame that does not fit `cap` the first cap bytes, 4 fewer if cap is above 60; of a broken frame nothing |
| RxRing.PayloadIsHandedOut | src/1.0/e1000.c:261-275 | a payload of more than 56 bytes with 4 bytes of CRC, and room for both, comes out as exactly the payload; a shorter one with its CRC |
| RxRing.PayloadsComeOut | src/1.0/e1000.c:243-280 | if all frames are sound, long and have room, the driver gets exactly the payloads, in order, none missing |
| E1000.Nic.constructor | src/1.0/e1000.c:153-165 | the ring is set up in the initial state of the protocol: RDH 0, RDT 31, no status set |
| E1000.Nic.Store | src/1.0/e1000.c:153-165 | the device's step on the real arrays, wherever the driver stands, is the step of the protocol |
| E1000.Nic.Fetch | src/1.0/e1000.c:253-275 | the error byte and the length read earlier belong to the frame that is copied later, whatever frames the device stores in between |
| E1000.Nic.Recv | src/1.0/e1000.c:243-280 | with any frames arriving between its statements, a call of e1000_recv on the real arrays takes the driver's five steps of the protocol in order, woven with the device's; out[..n] is the right part of the frame that waits longest (all of it up to 60 bytes, else without its last 4 bytes, less if the room is smaller), a broken frame is dropped, nothing is reported only if nothing waits, and the slot is given back |
| E1000.FirstFrame | src/1.0/e1000.c:243-280 | a first frame of any length up to 2048 bytes with its CRC is handed out as its payload by the first call |
| E1000.Session | src/1.0/e1000.c:243-280 | frames that arrive between calls and inside them, in any order on the real arrays, make a run of the protocol, so the driver gets the sound ones once each and in order |
| E1000.CallEffect | src/1.0/e1000.c:243-280 | the whole effect on ring, registers and history of a call during which no frame arrives, which keeps the invariant |
| Net.LearnThenFind | src/1.0/net.c:56-86 | after learning a pair, its address is found with that MAC; if all entries were in use by other addresses, the one in the first entry is no longer found; every other address is found as before |
| Net.FindsLastHeard | src/1.0/net.c:56-86 | from an empty table the search gives the last MAC heard for an address, or nothing; it is never wrong |
| Net.RemembersAllExactly | src/1.0/net.c:56-86 | it gives the last MAC heard for every address exactly while no more than 8 addresses were heard |
| Net.NinthForgetsFirst | src/1.0/net.c:56-86 | of nine different hosts heard one after the other the first is no longer found |
| Net.NineHosts | src/1.0/net.c:56-86 | nine concrete addresses of which the first is forgotten |
| Net.ArpLayout | src/1.0/net.c:88-113 | the 42 bytes of an ARP frame one after the other (RFC 826, "Packet format"): the receiver's MAC first, then the sender's, the type, the fixed fields, the operation, the sender's two addresses, the target's MAC (zeros in a request) and its IP address |
| Net.EchoLayout | src/1.0/net.c:116-163 | the bytes of an echo frame (RFC 791, RFC 792): receiver, sender, type, the fixed fields of the header, addresses, kind, id and sequence number with the high byte first, and the 20 bytes from 0xA0 on; header and message pass the checksum |
| Net.ArpFields | src/1.0/net.c:88-113 | what a receiver looks at in an ARP frame is read back, whatever padding follows |
| Net.IcmpFields | src/1.0/net.c:116-163 | likewise in an echo frame |
| Net.AnswersExactly | src/1.0/net.c:178-203 | a host answers a frame exactly if it is an ARP request for its own address or an ICMP echo request to it, told byte by byte |
| Net.LearnsExactly | src/1.0/net.c:178-199 | every ARP frame teaches the sender's addresses; a frame that is neither ARP nor IPv4 to this host changes and brings nothing |
| NetStack.Stack.ArpLearn | src/1.0/net.c:56-74 | the loop over the table updates the entry of the address, or takes the first free one, or the first |
| NetStack.Stack.ArpFind | src/1.0/net.c:76-85 | the loop gives the MAC of the first entry with the address, or none |
| NetStack.Stack.ArpSend | src/1.0/net.c:88-113 | the bytes copied into the buffer one after the other are the ARP frame whose bytes ArpLayout gives |
| NetStack.Stack.IcmpSend | src/1.0/net.c:116-161 | the bytes written piece by piece, with the checksums stored afterwards, are the echo frame of the protocol |
| NetStack.Stack.NetPollOne | src/1.0/net.c:165-216 | the answer, the table and the frame sent are those of the protocol step, for every received frame |
| NetStack.Stack.AwaitReply | src/1.0/net.c:344-368 | the wait of ping ends with success exactly if a reply with its own id and that sequence number is among the frames that come in |
| NetStack.ReplyBytes | src/1.0/net.c:189-211 | the bytes that make a frame the reply waited for |
| NetWorld.RunInv | src/1.0/net.c:165-216 | two hosts over a wire that loses, repeats and reorders frames, each let in by the cards it is addressed to: every frame is truthful, every table entry true, in every reachable state |
| NetWorld.AddressesAreTrue | src/1.0/net.c:56-86 | whatever address a host finds in its table, the MAC is that of the host with this address |
| NetWorld.RepliesWereAskedFor | src/1.0/net.c:193-211 | net_poll_one reports a reply with id and sequence number only if this host sent a request with them before |
| NetWorld.PingSucceeds | src/1.0/net.c:281-382 | from every such state, if no frame is lost, asking for the address and then sending the echo ends with the reply; each of the four frames is addressed so that the card of its receiver lets it in |
| Paths.ResolveIsNormal | src/1.0/fs.c:69-106 | every result is a slash and at most 32 components of 1 to 63 characters, none of them `.` or `..` |
| Paths.ResolveTwice | src/1.0/fs.c:50-107 | resolving a resolved path changes nothing, from any directory |
| Paths.ResolveComposes | src/1.0/fs.c:50-107 | resolving b below the resolved a is resolving a/b, for nonempty a and relative nonempty b, dropped components included |
| Paths.NoWayAboveRoot | src/1.0/fs.c:82-83 | the root is its own parent |
| Paths.EnterAndLeave | src/1.0/fs.c:80-93 | from the path of a stack of directories, a name leads to the stack with it on top, `..` from there leads back, and `.` nowhere |
| Paths.DroppedExactly | src/1.0/fs.c:84-90 | a name is dropped exactly if it has more than 63 characters or 32 directories lie above it |
| Paths.ParentOfChild | src/1.0/fs.c:80-93 | a/c/.. resolves as a, wherever a leads and there is room for c |
| Paths.NothingMoved | src/1.0/fs.c:74-82 | a/. and a/ resolve as a |
| Paths.TwoNames | src/1.0/fs.c:50-107 | for all names: `..` from /a/b is /a and from /a is /; b from /a is /a/b; b/../c from /a is /a/c; and /b is /b from anywhere |
| Paths.ResolveInComposes | src/1.0/fs.c:50-107 | the composition law holds of fs_resolve itself where its buffers cut nothing off |
| Paths.ResolveInTwice | src/1.0/fs.c:50-107 | and so does idempotence |
| Paths.FsResolve | src/1.0/fs.c:50-107 | the code with its buffer, its stack of 32 names and its output limit computes the stack machine's result, cut off at the limits |
| Overlay.RunInv | src/1.0/fs.c:199-279 | every run of write, touch, mkdir and rm keeps: at most 32 files and 32 directories, sizes and lengths in bounds, no directory made by mkdir is a file |
| Overlay.StateIsHistory | src/1.0/fs.c:199-279 | the calls and the codes they returned determine the state: after any run from the start a reader sees under each path what the last successful write, touch or rm of it left, and otherwise the file of the ROM; the directories are those mkdir reported as made, in order |
| Overlay.RunKeepsParents | src/1.0/fs.c:237-279 | the parent of a directory made by mkdir is a directory all through a run exactly if no rm removes a file that alone makes such a parent a directory |
| Overlay.ParentIsLost | src/1.0/fs.c:237-279 | a run of write, mkdir and rm on an empty ROM that leaves a directory whose parent is none |
| Overlay.DirectoriesAreNoFiles | src/1.0/fs.c:199-266 | after any run, no directory made by mkdir is also seen as a file |
| Overlay.RmUncovers | src/1.0/fs.c:268-279 | after rm the file of the ROM is seen again, or nothing |
| Overlay.WriteSucceeds | src/1.0/fs.c:200-227 | writing succeeds exactly for at most 2048 bytes under at most 127 characters where no directory is, into a file in memory or a free slot of 32; then those bytes are seen there, and elsewhere what was seen before |
| Overlay.TouchIsEmptyWrite | src/1.0/fs.c:229-235 | touch does nothing to a file that can be seen, and otherwise writes an empty one |
| Overlay.DirectoriesAreSeen | src/1.0/fs.c:144-170 | a path is a directory exactly if it is the root, one of the ROM or of mkdir, or up to 126 characters long and followed by a slash and more in the path of a file that can be seen |
| Overlay.MkdirSucceeds | src/1.0/fs.c:237-266 | a directory can be made exactly where neither a file nor a directory is, under 1 to 127 characters, in a directory, while there are fewer than 32 |
| Overlay.ParentIs | src/1.0/fs.c:246-257 | the parent of a/c is a, and that of /c the root |
| Overlay.RunIsBounded | src/1.0/fs.c:199-279 | after any run from the start the limits of 32 files, 32 directories, 2048 bytes and 127 characters hold |
| Overlay.WriteThenRm | src/1.0/fs.c:199-279 | writing a file that was not in the overlay and removing it restores the state |
| Overlay.MkdirMakesDirectory | src/1.0/fs.c:237-266 | a successful mkdir makes a directory where nothing was |
| FileSystem.Fs.FsIsDir | src/1.0/fs.c:144-170 | the loops and the prefix search decide whether the path is a directory of the model |
| FileSystem.Fs.FsRead | src/1.0/fs.c:178-197 | the contents seen are copied to the buffer, or nothing is if there are none or no room |
| FileSystem.Fs.FsWrite | src/1.0/fs.c:200-227 | writing refines the map operation, with its four grounds of refusal |
| FileSystem.Fs.FsTouch | src/1.0/fs.c:229-235 | likewise for touch |
| FileSystem.Fs.FsMkdir | src/1.0/fs.c:237-266 | likewise for mkdir, including how the parent is cut from the path |
| FileSystem.Fs.FsRm | src/1.0/fs.c:268-279 | likewise for rm, with -2 for a file of the ROM |
| FileSystem.Fs.FsStats | src/1.0/fs.c:393-404 | the counts are the number of files in the map and the sum of their sizes |
| Bresenham.DrawLine | src/1.0/gui.c:2173-2197 | for all endpoints the loop ends at the second one, plots max(dx, dy) + 1 pixels, each within both ranges and within half a pixel of the ideal line, the k-th k steps along the longer side, neighbours touching |
| Bresenham.DeviationIs | src/1.0/gui.c:2173-2197 | the deviation summed up step by step is dx * j - dy * i |
| Bresenham.NoOvershoot | src/1.0/gui.c:2173-2197 | a point close to the line cannot leave the other range, and reaches both ends at once |
| Bresenham.NearestIsPlotted | src/1.0/gui.c:2173-2197 | on a line that is not steep, no pixel of the same column is nearer to it than the plotted one |
| Bresenham.NearestIsPlottedSteep | src/1.0/gui.c:2173-2197 | on a steep line, no pixel of the same row is |
| Calendar.NextDayNumber | src/1.0/gui.c:2838-2847 | the next day of the calendar has the next number |
| Calendar.NextWeekday | src/1.0/gui.c:2826-2847 | one day on is one weekday on, across the ends of months and years, leap years and centuries included |
| Calendar.WeekdayCountsDays | src/1.0/gui.c:2826-2847 | Zeller's congruence is the number of days since the start of the calendar modulo 7, for every date from year 1 on |
| Calendar.Repeats | src/1.0/gui.c:2826-2847 | the calendar repeats every 400 years |
| Calendar.KnownDays | src/1.0/gui.c:2826-2847 | 1 January 2000 was a Saturday; the last day of February in 1900 and 2000 |
| TerminalLog.LogOnlyGrows | src/1.0/gui.c:893-941 | over every run of keystrokes, from a cursor at either end of its line, it stays at one of them and within column 127, and lines before the last are never touched again |
| TerminalLog.TextIsKept | src/1.0/gui.c:921-939 | printable text typed on a fresh line is all there, in lines that are full except the last |
| TerminalLog.LinesAreShown | src/1.0/gui.c:893-941 | a text of any number of lines is shown line below line, each cut only where it is longer than the visible width; nothing above it changes, and the cursor is on a fresh line |
| TerminalLog.LetterAtCursor | src/1.0/gui.c:921-939 | a letter goes to the cursor in the current colours, or to a fresh line if the visible width is used up: the width given, 80 if none is, at most 127 |
| TerminalLog.TabToNextStop | src/1.0/gui.c:910-920 | a tab goes on to the next multiple of 8 and leaves blanks behind |
| TerminalLog.ReturnThenLetter | src/1.0/gui.c:902-903 | after a carriage return the next letter takes the place of the line |
| TerminalLog.OthersIgnored | src/1.0/gui.c:893-941 | a backspace at the start of a line and all other control characters change nothing |
| TerminalLog.RubOutUndoes | src/1.0/gui.c:905-909 | a backspace takes back a character just typed exactly if that was typed at the end of its line and began no new one |
| Terminal.Term.TermNewline | src/1.0/gui.c:868-891 | scrolling by copying 255 rows keeps the buffer equal to the last 256 lines of the log, colours included |
| Terminal.Term.LastLinesAreShown | src/1.0/gui.c:868-891 | each of the last 256 lines of the log stands in its row, character by character, in its colours and with its end |
| Terminal.Term.Tab | src/1.0/gui.c:910-920 | blanks up to the next multiple of 8; from column 120 on the loop cannot end, which is reported as stuck |
| TerminalLog.SixteenTabsStick | src/1.0/gui.c:910-920 | after fifteen tabs on a fresh terminal the sixteenth never returns |
| Terminal.Term.TermPutc | src/1.0/gui.c:893-945 | after every character, at any width, the buffer of 256 rows with its colours is exactly the last lines of the unbounded log; nothing happens outside the graphical mode |
| Terminal.Term.WriteText | src/1.0/kernel.c:269-274 | a text without escape sequences written in the graphical mode leads to the log after all its characters, unless one of them is a tab that sticks, so never without a tab |
| Terminal.Term.TermSetAttr | src/1.0/gui.c:855-859 | the colours of what is typed from then on |
| Terminal.Term.TermClear | src/1.0/gui.c:953-968 | clearing gives the empty log |
| Desk.RunKeepsInv | src/1.0/gui.c:1095-1242 | every run of the window operations keeps: the stacking order lists each used window once, no two windows are of one kind, and the focus is nowhere or on the top window |
| Desk.ReachedInv | src/1.0/gui.c:1095-1242 | so every state reached from the start of the desktop has these properties |
| Desk.FocusedIsOnTop | src/1.0/gui.c:1184-1196 | so a point of the focused window, if that is not minimised, belongs to it |
| Desk.RaiseKeepsTheOthers | src/1.0/gui.c:1082-1093 | raising puts a window on top and keeps the order of the others; raising again changes nothing |
| Desk.OpenSucceeds | src/1.0/gui.c:1105-1143 | opening fails exactly if all 15 slots hold windows of other kinds; otherwise the window of that kind is shown and focused |
| Desk.OpensInPlace | src/1.0/gui.c:1105-1143 | a window of that kind keeps its place and comes to the front; a new one of 640 x 460 or 480 x 340 lies on top, 36 to the right of and 30 below the place of the one before |
| Desk.OpenThenClose | src/1.0/gui.c:1105-1181 | closing the window just opened restores the order and the other windows, and focuses the window on top |
| Desk.CloseLeaves | src/1.0/gui.c:1159-1181 | closing takes the window out of the order and leaves the others in theirs; the focus stays, or passes to the window on top if it was the closed one's |
| Desk.ToggleTwice | src/1.0/gui.c:1221-1242 | maximising twice restores the place of a window exactly if it was not maximised, or fills the screen already |
| Desk.MaximizedSurvivesClosing | src/1.0/gui.c:1119-1139 | a window placed in a slot that was closed while maximised counts as maximised, and its first toggle moves it to where the old window once was |
| Desk.FreshButMaximized | src/1.0/gui.c:1119-1139 | a run from the start of the desktop that ends with such a window |
| Desk.NextIsShown | src/1.0/gui.c:1802-1830 | whenever a window is shown, the window switcher points at one that is not minimised after opening or moving on |
| Desk.SwitcherOpensAtTheBottom | src/1.0/gui.c:1807-1815 | the focused window is the top one, so the switcher always opens at the bottom of the order |
| Desk.SwitcherChooses | src/1.0/gui.c:1802-1844 | moving on changes only what is pointed at, and confirming brings that window to the front |
| Desk.SeekStops | src/1.0/gui.c:1819-1826 | it stops at the first window that is not minimised, going round at most once |
| Desk.PressComesToFront | src/1.0/gui.c:3929-3961 | pressing on a window never touches the others; unless it closes or hides the window, it leaves it focused on top with the others in order |
| Desk.PressCloses | src/1.0/gui.c:3936-3941 | a press on the first button closes the window and focuses the one now on top |
| Desk.PressHides | src/1.0/gui.c:3942-3948 | a press on the second minimises it: no point shows it, no window has the focus, and place and order stay |
| Desk.PressFills | src/1.0/gui.c:3949-3954 | a press on the third lets it fill the screen between the bars, or puts it back where it was |
| Desk.PressGrabs | src/1.0/gui.c:3955-3962 | a press on the title beside the buttons begins a drag, which moves the window and keeps its size |
| Desk.CoversItsRectangle | src/1.0/gui.c:1184-1196 | a shown window is hit exactly at the points of its rectangle |
| WindowManager.Windows.WinFind | src/1.0/gui.c:1072-1080 | the loop finds the window of a kind |
| WindowManager.Windows.WinRaise | src/1.0/gui.c:1082-1093 | shifting the array in place is raising |
| WindowManager.Windows.WinFocus | src/1.0/gui.c:1095-1103 | focusing shows, raises and focuses, and keeps the invariant |
| WindowManager.Windows.WinOpen | src/1.0/gui.c:1105-1143 | opening in the arrays is opening in the model; there is always room in the order |
| WindowManager.Windows.WinClose | src/1.0/gui.c:1159-1181 | closing in the arrays is closing in the model, with the focus passed on and a drag ended |
| WindowManager.Windows.WinAt | src/1.0/gui.c:1184-1196 | the window found is the topmost that is shown at the point; -1 means no window is shown there |
| WindowManager.Windows.WinToggleMax | src/1.0/gui.c:1221-1242 | maximising and back in the arrays is that of the model |
| WindowManager.Windows.MousePress | src/1.0/gui.c:3929-3961 | a press acts on the topmost window at the point |
| WindowManager.Windows.SwitcherNext | src/1.0/gui.c:1802-1830 | the overlay opens or moves on as in the model |
| WindowManager.Windows.SwitcherConfirm | src/1.0/gui.c:1832-1844 | confirming focuses the window pointed at; with no window left it would divide by zero, which is reported |
| Desk.NothingToConfirm | src/1.0/gui.c:1832-1844 | a run from any desktop without windows, as at the start, that leaves the switcher open with no window |
| WindowManager.Windows.SwitcherCancel | src/1.0/gui.c:1846-1850 | cancelling closes the overlay and changes nothing else |
| WordWrap.LettersKept | src/1.0/browser.cpp:438-464 | every letter of a text is in one of its words, in order, exactly if no word is longer than 90 characters |
| WordWrap.LetterIsLost | src/1.0/browser.cpp:444-463 | a word of 91 letters becomes a word of 90, and the letter that did not fit is in no word |
| WordWrap.WordAtFront | src/1.0/browser.cpp:438-464 | a word of at most 90 letters ends at a blank, a tab or a line feed, which is also a line end, and the rest of the text follows by itself |
| WordWrap.AddAllKeepsContent | src/1.0/browser.cpp:466-486 | laying out words and line ends keeps all of them, in order |
| WordWrap.AddAllKeepsBroken | src/1.0/browser.cpp:466-486 | every line has at most 94 characters, and a line is broken only at a line end or where the next word would not fit |
| WordWrap.FitsExactly | src/1.0/browser.cpp:466-486 | a word goes on the line exactly if the line then has at most 94 characters |
| WordWrap.NoRoomLeft | src/1.0/browser.cpp:466-486 | no line that ends without a line end of the text could take the first word of the next |
| WordWrap.OnlyOneLayout | src/1.0/browser.cpp:466-486 | lines that are so broken are determined by their words and line ends alone |
| WordWrap.PageHoldsAll | src/1.0/browser.cpp:989-1002 | the page of 200 lines holds everything exactly if no more lines are needed, and then it is laid out as without a limit |
| WordWrap.LineIsLost | src/1.0/browser.cpp:989-1002 | a text of 200 line ends needs 201 lines, and the page of 200 holds fewer line ends than the text |
| WordWrap.LineReadsBack | src/1.0/browser.cpp:466-486 | the words of a line are those its text shows |
| WordWrap.TextOnFreshPage | src/1.0/browser.cpp:438-486 | on a fresh page, for words of at most 90 characters and enough lines, the words on the lines in order are exactly those of the text |
| Page.Page.NewLine | src/1.0/browser.cpp:989-1002 | a line more, unless there are 200 |
| Page.Page.EmitWord | src/1.0/browser.cpp:466-486 | writing a word character by character in the row is adding it to the layout |
| Page.Page.EmitText | src/1.0/browser.cpp:438-464 | the scanning loop lays out exactly the words and line ends of the text |
| Zipper.UpGoesUp | src/1.0/edit.c:115-125 | up goes one line up and keeps the column as far as that line reaches; on the first line it stays |
| Zipper.DownGoesDown | src/1.0/edit.c:126-132 | down likewise; on the last line it stays |
| Zipper.UpThenDown | src/1.0/edit.c:115-133 | up and down again comes back exactly if the upper line reaches the column |
| Zipper.DownThenUp | src/1.0/edit.c:115-133 | down and up again comes back exactly if the lower line reaches the column |
| Zipper.PlaceIsKnown | src/1.0/edit.c:40-54 | a place of the text is known by its line and column |
| Zipper.KeysUpAndDown | src/1.0/edit.c:213-216 | the keys 0x81 and 0x82 go one line up or down, to the same column or the end of a shorter line, and stay on the first and the last line |
| Zipper.KeysAlongTheLine | src/1.0/edit.c:206-225 | 0x83 and 0x84 go one place to the left or right, 0x86 and 0x87 to the beginning and the end of the line |
| Zipper.LinesAreCounted | src/1.0/edit.c:40-54 | the number of a line is the number of line feeds before it |
| Zipper.MovingKeepsText | src/1.0/edit.c:206-217 | the keys for moving leave the text alone |
| Zipper.BackspaceUndoes | src/1.0/edit.c:194-205 | backspace takes back a character just typed |
| Zipper.DeleteByBackspace | src/1.0/edit.c:200-211 | delete is backspace after a step to the right |
| Zipper.KeysChange | src/1.0/edit.c:194-225 | line feed and the characters from 32 to 126 are inserted while the text has fewer than 8191; backspace and 0x85 take away the character before and after the cursor; no other key changes the text |
| Zipper.SessionKeys | src/1.0/edit.c:177-191 | Escape ends the session without handing the text over, Ctrl+O hands it over and goes on, Ctrl+X does both |
| Zipper.TypedText | src/1.0/edit.c:194-224 | typed characters appear before the cursor, as many as there is room for |
| Zipper.SessionIsSafe | src/1.0/edit.c:177-225 | over every run of keys the text stays within 8192 bytes; the texts handed to fs_write are logged in order |
| Saving.SessionLeaves | src/1.0/edit.c:177-191 | after any keys the file holds the last text handed to fs_write of at most 2048 bytes, if the file system takes texts under its path at all, and otherwise what it held; no other file is seen to change |
| Saving.QuitKeepsText | src/1.0/edit.c:188-191 | Ctrl+X leaves the text in the file exactly if the file system takes it or it was there already |
| Saving.SaveThenOpen | src/1.0/edit.c:135-142 | opening a file again after a save that the file system took gives the text that was saved |
| Saving.LeavingWithoutSaving | src/1.0/edit.c:177-191 | Escape leaves the file system as it is |
| Saving.LongTextIsLost | src/1.0/edit.c:188-191 | whoever types 2049 characters into a new file and leaves with Ctrl+X finds no file and is shown no message |
| Saving.BarTells | src/1.0/edit.c:172-187 | while the editor is open its bar says that the text was not saved exactly as long as the last Ctrl+O failed, and that it was saved exactly right after a Ctrl+O that saved it |
| Editor.MemMove | src/1.0/libc.c:91-105 | copying forwards or backwards moves the bytes as if through a second buffer, however the areas overlap |
| Editor.Buffer.GotoLine | src/1.0/edit.c:115-133 | the searches for line starts and ends give the place one line up or down |
| Editor.Buffer.EditKey | src/1.0/edit.c:192-225 | every key, by moving bytes in the buffer, does to text and cursor what it does to the text before and after the cursor |
| Editor.EditFile | src/1.0/edit.c:135-225 | for every path, file system and sequence of keys, the editor on its buffer and the tables of the file system leaves the state of the session on the text before and after the cursor, and draws the bars of that session |

## Left out

- Int64.Wrap: signed overflow, which C leaves undefined, is fixed as wrap-around, and the smallest value divided by -1 as itself, where the processor traps.
- Cc.CcRun: leaves out reading the file into its buffer of 8191 characters, the texts of error messages, and what a failing program printed before its error.
- MiniJs.Browser.ScriptRun: for a script with a syntax error only the error is specified, not what its statements before did.
- MiniJs.Browser.JsStmt: output is a list of lines and status texts; laying the lines out is modelled apart (Page), and cutting the status text to its 95 characters is not.
- MiniJsPrinting.ScriptRoundTrip: printed scripts hold no expression statement that starts with a minus sign, which the text would join to the expression before, since `;` is a blank there; names that are declared or assigned hold no digits, as in the code.
- CcPrinting.ProgramRoundTrip: nothing stands behind a `return`, because the code ends the block there and then demands `}`.
- Paths.FsResolve: a relative path below a working directory of 255 or more characters that the buffer does not cut behind a slash, and output buffers of fewer than 2 bytes: the code would write behind its buffers, and the kernel passes neither.
- Paths.ResolveInComposes: asks that no buffer cuts anything off; the law without that condition is ResolveComposes.
- E1000.Nic.Recv: frames may arrive between its statements, but the copy of the buffer is one statement; the transmit ring, hardware set-up, the test of the CRC-stripping bit (never set by this driver) and frames longer than one buffer of 2048 bytes.
- NetStack.Stack.NetPollOne: takes the received frame as a parameter; failing sends, parsing of addresses and reconfiguration of the address are left out.
- NetStack.Stack.AwaitReply: the clock is left out: the frames that come in until the time is up are a parameter.
- NetWorld.PingSucceeds: states that one undisturbed exchange succeeds, not that it does so in time.
- FileSystem.Fs.FsWrite: file data is a sequence of its current size; stale bytes beyond it in the slot's buffer are not modelled. Listing directories is left out.
- Bresenham.DrawLine: mathematical integers, so no overflow of coordinates beyond 30 bits; the pixels are a list, and clipping and colours are left out.
- Calendar.WeekdayCountsDays: years before 1, for which the dividend may be negative.
- Terminal.Term.TermPutc: repainting; a stuck tab leaves the state unspecified.
- Desk.Run: moving a dragged window is any change of its place; the clamping to the screen, titles, the dock, menus and icons are left out.
- Page.Page.EmitText: links, colours and alignment of lines.
- Editor.EditFile: scrolling and rendering, and the texts of the bar; the buffer is new for each file, where the code uses one again.
- ANSI colour sequences, BMP decoding, keyboard maps, mouse packets, games, sound, disks and the shell's applets, which are drawing and hardware access or would only add easy members.

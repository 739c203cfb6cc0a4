/** Program arguments: exec lays them out on the one-page user stack of the new program, and the program's _start
    reads them back. */
module ExecArgs {
  import opened Basics
  import opened Bytes

  const PAGE := 4096

  type Arg = seq<byte>

  // ----- machine words in memory

  /** The n low bytes of v, lowest first. */
  function Encode(v: nat, n: nat): (s: seq<byte>)
    ensures |s| == n
  {
    if n == 0 then [] else [v % 256] + Encode(v / 256, n - 1)
  }

  function Decode(s: seq<byte>): nat {
    if s == [] then 0 else s[0] + 256 * Decode(s[1..])
  }

  function Pow256(n: nat): (p: nat)
    ensures p > 0
  {
    if n == 0 then 1 else 256 * Pow256(n - 1)
  }

  lemma {:induction false} WordReadsBack(v: nat, n: nat)
    requires v < Pow256(n)
    ensures Decode(Encode(v, n)) == v
    decreases n
  {
    if n > 0 {
      WordReadsBack(v / 256, n - 1);
      assert Encode(v, n)[1..] == Encode(v / 256, n - 1);
    }
  }

  lemma {:induction false} Pow256Of8()
    ensures Pow256(8) == 0x1_0000_0000_0000_0000
  {
    assert Pow256(2) == 0x1_0000;
    assert Pow256(4) == 0x1_0000_0000;
    assert Pow256(6) == 0x1_0000_0000_0000;
  }

  // ----- the layout

  /** Bytes of the first i strings, each with its NUL. */
  ghost function Size(args: seq<Arg>, i: nat): nat
    requires i <= |args|
  {
    if i == 0 then 0 else Size(args, i - 1) + |args[i - 1]| + 1
  }

  lemma {:induction false} SizeGrows(args: seq<Arg>, i: nat, j: nat)
    requires i <= j <= |args|
    ensures Size(args, i) + (j - i) <= Size(args, j)
    decreases j
  {
    if i < j {
      SizeGrows(args, i, j - 1);
    }
  }

  /** The pointers and the strings fit the page. */
  ghost predicate Fits(args: seq<Arg>) {
    8 * (|args| + 1) + Size(args, |args|) <= PAGE
  }

  /** Offset in the page of the pointer array: argc pointers and a null pointer, up to the top of the stack. */
  function ArrayAt(n: nat): int {
    PAGE - 8 * (n + 1)
  }

  /** Offset in the page of string i. */
  ghost function StringAt(args: seq<Arg>, i: nat): int
    requires i < |args|
  {
    ArrayAt(|args|) - Size(args, i + 1)
  }

  /** The layout in numbers: the array ends at the top of the page, string 0 ends below it, and each string ends where
      the one before starts. The lowest string is where they all end. */
  lemma {:induction false} LayoutIs(args: seq<Arg>, i: nat)
    requires i < |args|
    ensures ArrayAt(|args|) + 8 * |args| + 8 == 4096
    ensures StringAt(args, i) + |args[i]| + 1 == if i == 0 then ArrayAt(|args|) else StringAt(args, i - 1)
    ensures StringAt(args, |args| - 1) == ArrayAt(|args|) - Size(args, |args|)
    ensures Fits(args) <==> StringAt(args, |args| - 1) >= 0
  {
    assert Size(args, i + 1) == Size(args, i) + |args[i]| + 1;
    assert Size(args, 0) == 0;
  }

  lemma {:induction false} InPage(args: seq<Arg>, i: nat)
    requires Fits(args) && i < |args|
    ensures 0 <= StringAt(args, i)
    ensures StringAt(args, i) + |args[i]| + 1 == ArrayAt(|args|) - Size(args, i) <= ArrayAt(|args|) <= PAGE
  {
    SizeGrows(args, i + 1, |args|);
  }

  /** The strings lie below the pointer array and do not overlap: string j ends at or before string i starts. */
  lemma {:induction false} NoOverlap(args: seq<Arg>, i: nat, j: nat)
    requires Fits(args) && i < j < |args|
    ensures 0 <= StringAt(args, j) && StringAt(args, j) + |args[j]| + 1 <= StringAt(args, i)
    ensures StringAt(args, i) + |args[i]| + 1 <= ArrayAt(|args|)
  {
    InPage(args, i);
    InPage(args, j);
    SizeGrows(args, i + 1, j);
  }

  /** The eight bytes of a word in memory. Sealed. */
  ghost predicate IsWord(bytes: seq<byte>, v: nat) {
    forall j: nat {:trigger Open(j)} :: bytes == Encode(v, 8)
  }

  /** The bytes of a word in memory: the lowest comes first. */
  lemma {:induction false} WordBytes(bytes: seq<byte>, v: nat)
    requires IsWord(bytes, v)
    ensures |bytes| == 8 && bytes[0] == v % 256 && bytes[1] == v / 256 % 256 && bytes[2] == v / 0x1_0000 % 256
    ensures bytes[3] == v / 0x100_0000 % 256 && bytes[4] == v / 0x1_0000_0000 % 256
    ensures bytes[5] == v / 0x100_0000_0000 % 256 && bytes[6] == v / 0x1_0000_0000_0000 % 256
    ensures bytes[7] == v / 0x100_0000_0000_0000 % 256
  {
    assert bytes == Encode(v, 8) by {
      assert Open(0);
    }
    EncodeNext(v, 8, 1);
    EncodeNext(v, 8, 2);
    EncodeNext(v, 8, 3);
    EncodeNext(v, 8, 4);
    EncodeNext(v, 8, 5);
    EncodeNext(v, 8, 6);
    EncodeNext(v, 8, 7);
    Shifts(v);
  }

  /** v without its k lowest bytes. */
  ghost function Shift(v: nat, k: nat): nat {
    if k == 0 then v else Shift(v, k - 1) / 256
  }

  lemma {:induction false} ShiftInside(v: nat, k: nat)
    requires k > 0
    ensures Shift(v, k) == Shift(v / 256, k - 1)
  {
    if k > 1 {
      ShiftInside(v, k - 1);
    }
  }

  lemma {:induction false} EncodeNext(v: nat, n: nat, k: nat)
    requires k < n
    ensures Encode(v, n)[k] == Shift(v, k) % 256
    decreases n
  {
    if k > 0 {
      EncodeNext(v / 256, n - 1, k - 1);
      ShiftInside(v, k);
      assert Encode(v, n)[k] == Encode(v / 256, n - 1)[k - 1];
    }
  }

  lemma {:induction false} Shifts(v: nat)
    ensures Shift(v, 1) == v / 256 && Shift(v, 2) == v / 0x1_0000 && Shift(v, 3) == v / 0x100_0000
    ensures Shift(v, 4) == v / 0x1_0000_0000 && Shift(v, 5) == v / 0x100_0000_0000
    ensures Shift(v, 6) == v / 0x1_0000_0000_0000 && Shift(v, 7) == v / 0x100_0000_0000_0000
  {
    assert Shift(v, 0) == v;
    assert Shift(v, 1) == v / 256;
    assert v / 256 / 256 == v / 0x1_0000;
    assert Shift(v, 2) == v / 0x1_0000;
    assert v / 0x1_0000 / 256 == v / 0x100_0000;
    assert Shift(v, 3) == v / 0x100_0000;
    assert v / 0x100_0000 / 256 == v / 0x1_0000_0000;
    assert Shift(v, 4) == v / 0x1_0000_0000;
    assert v / 0x1_0000_0000 / 256 == v / 0x100_0000_0000;
    assert Shift(v, 5) == v / 0x100_0000_0000;
    assert v / 0x100_0000_0000 / 256 == v / 0x1_0000_0000_0000;
    assert Shift(v, 6) == v / 0x1_0000_0000_0000;
    assert v / 0x1_0000_0000_0000 / 256 == v / 0x100_0000_0000_0000;
  }

  lemma {:induction false} WordDecodes(bytes: seq<byte>, v: nat)
    requires IsWord(bytes, v) && v < 0x1_0000_0000_0000_0000
    ensures Decode(bytes) == v
  {
    assert bytes == Encode(v, 8) by {
      assert Open(0);
    }
    Pow256Of8();
    WordReadsBack(v, 8);
  }

  /** Pointer i of the array. */
  ghost predicate PointerOk(m: seq<byte>, base: nat, args: seq<Arg>, i: nat)
    requires |m| == PAGE && Fits(args) && i < |args|
  {
    InPage(args, i);
    IsWord(m[ArrayAt(|args|) + 8 * i..ArrayAt(|args|) + 8 * i + 8], base + StringAt(args, i))
  }

  /** String i with its NUL. */
  ghost predicate StringOk(m: seq<byte>, args: seq<Arg>, i: nat)
    requires |m| == PAGE && Fits(args) && i < |args|
  {
    InPage(args, i);
    m[StringAt(args, i)..StringAt(args, i) + |args[i]| + 1] == args[i] + [0]
  }

  /** The null pointer at the end of the array and the first n arguments are in place. Sealed. */
  ghost predicate Laid(m: seq<byte>, base: nat, args: seq<Arg>, n: nat) {
    && |m| == PAGE && Fits(args) && n <= |args|
    && forall j: nat {:trigger Open(j)} ::
      && IsWord(m[PAGE - 8..PAGE], 0)
      && forall i :: 0 <= i < n ==> PointerOk(m, base, args, i) && StringOk(m, args, i)
  }

  lemma {:induction false} LaidAt(m: seq<byte>, base: nat, args: seq<Arg>, n: nat, i: nat)
    requires Laid(m, base, args, n) && i < n
    ensures PointerOk(m, base, args, i) && StringOk(m, args, i)
  {
    assert Open(0);
  }

  /** Nothing outside [lo, hi) differs. Sealed. */
  ghost predicate SameOutside(a: seq<byte>, b: seq<byte>, lo: int, hi: int) {
    && |a| == |b|
    && forall j: nat {:trigger Open(j)} :: forall p :: 0 <= p < |a| && !(lo <= p < hi) ==> a[p] == b[p]
  }

  lemma {:induction false} SliceKept(a: seq<byte>, b: seq<byte>, lo: int, hi: int, from: int, to: int)
    requires SameOutside(a, b, lo, hi) && 0 <= from <= to <= |a| && (to <= lo || hi <= from)
    ensures a[from..to] == b[from..to]
  {
    assert Open(0);
  }

  ghost predicate InRange(args: seq<Arg>, n: nat)
    requires n < |args|
  {
    0 <= StringAt(args, n) && StringAt(args, n) + |args[n]| + 1 <= PAGE
  }

  /** From m to w pointer n was stored, from w to z string n. */
  ghost predicate Pushed(m: seq<byte>, w: seq<byte>, z: seq<byte>, base: nat, args: seq<Arg>, n: nat) {
    && n < |args| && |m| == |w| == |z| == PAGE && Fits(args) && InRange(args, n)
    && SameOutside(m, w, ArrayAt(|args|) + 8 * n, ArrayAt(|args|) + 8 * n + 8)
    && SameOutside(w, z, StringAt(args, n), StringAt(args, n) + |args[n]| + 1)
    && IsWord(w[ArrayAt(|args|) + 8 * n..ArrayAt(|args|) + 8 * n + 8], base + StringAt(args, n))
    && z[StringAt(args, n)..StringAt(args, n) + |args[n]| + 1] == args[n] + [0]
  }

  /** A piece of the page that is neither pointer n nor string n. */
  lemma {:induction false} PieceKept(m: seq<byte>, w: seq<byte>, z: seq<byte>, base: nat, args: seq<Arg>, n: nat,
                                     from: int, to: int)
    requires Pushed(m, w, z, base, args, n) && 0 <= from <= to <= PAGE
    requires to <= ArrayAt(|args|) + 8 * n || ArrayAt(|args|) + 8 * n + 8 <= from
    requires to <= StringAt(args, n) || StringAt(args, n) + |args[n]| + 1 <= from
    ensures z[from..to] == m[from..to]
  {
    SliceKept(m, w, ArrayAt(|args|) + 8 * n, ArrayAt(|args|) + 8 * n + 8, from, to);
    SliceKept(w, z, StringAt(args, n), StringAt(args, n) + |args[n]| + 1, from, to);
  }

  lemma {:induction false} EarlierKept(m: seq<byte>, w: seq<byte>, z: seq<byte>, base: nat, args: seq<Arg>, n: nat,
                                       i: nat)
    requires Pushed(m, w, z, base, args, n) && i < n && PointerOk(m, base, args, i) && StringOk(m, args, i)
    ensures PointerOk(z, base, args, i) && StringOk(z, args, i)
  {
    InPage(args, i);
    InPage(args, n);
    NoOverlap(args, i, n);
    PieceKept(m, w, z, base, args, n, ArrayAt(|args|) + 8 * i, ArrayAt(|args|) + 8 * i + 8);
    PieceKept(m, w, z, base, args, n, StringAt(args, i), StringAt(args, i) + |args[i]| + 1);
  }

  lemma {:induction false} NewInPlace(m: seq<byte>, w: seq<byte>, z: seq<byte>, base: nat, args: seq<Arg>, n: nat)
    requires Pushed(m, w, z, base, args, n)
    ensures PointerOk(z, base, args, n) && StringOk(z, args, n)
  {
    InPage(args, n);
    var slot, text := ArrayAt(|args|) + 8 * n, StringAt(args, n);
    SliceKept(w, z, text, text + |args[n]| + 1, slot, slot + 8);
  }

  /** Writing pointer n and string n disturbs nothing that is in place. */
  lemma {:induction false} LaidNext(m: seq<byte>, w: seq<byte>, z: seq<byte>, base: nat, args: seq<Arg>, n: nat,
                                    slot: int, text: int)
    requires n < |args| && Laid(m, base, args, n) && slot == ArrayAt(|args|) + 8 * n && text == StringAt(args, n)
    requires 0 <= slot && slot + 8 <= PAGE && 0 <= text && text + |args[n]| + 1 <= PAGE && |z| == |w| == PAGE
    requires SameOutside(m, w, slot, slot + 8) && SameOutside(w, z, text, text + |args[n]| + 1)
    requires IsWord(w[slot..slot + 8], base + text) && z[text..text + |args[n]| + 1] == args[n] + [0]
    ensures Laid(z, base, args, n + 1)
  {
    assert Pushed(m, w, z, base, args, n);
    LaidPushed(m, w, z, base, args, n);
  }

  lemma {:induction false} LaidPushed(m: seq<byte>, w: seq<byte>, z: seq<byte>, base: nat, args: seq<Arg>, n: nat)
    requires Laid(m, base, args, n) && Pushed(m, w, z, base, args, n)
    ensures Laid(z, base, args, n + 1)
  {
    InPage(args, n);
    assert IsWord(m[PAGE - 8..PAGE], 0) by {
      assert Open(0);
    }
    PieceKept(m, w, z, base, args, n, PAGE - 8, PAGE);
    NewInPlace(m, w, z, base, args, n);
    forall i | 0 <= i < n ensures PointerOk(z, base, args, i) && StringOk(z, args, i) {
      LaidAt(m, base, args, n, i);
      EarlierKept(m, w, z, base, args, n, i);
    }
  }

  // ----- exec

  /** *argv[i] = v */
  method StoreWord(page: array<byte>, at: nat, v: nat)
    requires page.Length == PAGE && at + 8 <= PAGE
    modifies page
    ensures IsWord(page[..][at..at + 8], v) && SameOutside(old(page[..]), page[..], at, at + 8)
  {
    var word := Encode(v, 8);
    forall k | 0 <= k < 8 {
      page[at + k] := word[k];
    }
    assert page[..][at..at + 8] == page[at..at + 8] == word;
  }

  /** The loop over the bytes of one argument, and the NUL behind them. */
  method StoreString(page: array<byte>, at: nat, arg: Arg)
    requires page.Length == PAGE && at + |arg| + 1 <= PAGE
    modifies page
    ensures page[..][at..at + |arg| + 1] == arg + [0] && SameOutside(old(page[..]), page[..], at, at + |arg| + 1)
  {
    var p := at;
    while p < at + |arg|
      invariant at <= p <= at + |arg| && page[at..p] == arg[..p - at]
      invariant forall q :: 0 <= q < PAGE && !(at <= q < p) ==> page[q] == old(page[q])
    {
      page[p] := arg[p - at];
      p := p + 1;
    }
    page[p] := 0;
    assert page[at..p + 1] == page[at..p] + [0];
    assert page[..][at..p + 1] == page[at..p + 1];
  }

  /** One round of the loop over the arguments: the string goes below the ones before, its address into argv[i]. */
  method PushArg(page: array<byte>, base: nat, args: seq<Arg>, i: nat, sp: nat) returns (after: nat)
    requires page.Length == PAGE && i < |args| && Laid(page[..], base, args, i)
    requires sp == base + ArrayAt(|args|) - Size(args, i)
    modifies page
    ensures Laid(page[..], base, args, i + 1) && after == base + ArrayAt(|args|) - Size(args, i + 1)
  {
    InPage(args, i);
    after := sp - (|args[i]| + 1);
    ghost var m, slot, text := page[..], ArrayAt(|args|) + 8 * i, StringAt(args, i);
    StoreWord(page, ArrayAt(|args|) + 8 * i, after);
    ghost var w := page[..];
    StoreString(page, after - base, args[i]);
    LaidNext(m, w, page[..], base, args, i, slot, text);
  }

  /** exec: the stack pointer, a0 and a1 of the new program. The arguments are in place, and the stack pointer is the
      highest multiple of 8 that is not above any of them. */
  method Exec(page: array<byte>, base: nat, args: seq<Arg>) returns (sp: nat, a0: nat, a1: nat)
    requires page.Length == PAGE && base % PAGE == 0 && Fits(args)
    modifies page
    ensures Laid(page[..], base, args, |args|) && a0 == |args| && a1 == base + ArrayAt(|args|)
    ensures var lowest := base + ArrayAt(|args|) - Size(args, |args|);
      sp % 8 == 0 && base <= sp <= lowest < sp + 8
  {
    sp := base + PAGE - (|args| + 1) * 8;
    a0, a1 := |args|, sp;
    StoreWord(page, PAGE - 8, 0);
    assert Laid(page[..], base, args, 0);
    var i := 0;
    while i < |args|
      invariant i <= |args| && Laid(page[..], base, args, i) && sp == base + ArrayAt(|args|) - Size(args, i)
    {
      sp := PushArg(page, base, args, i, sp);
      i := i + 1;
    }
    sp := sp - sp % 8;
  }

  // ----- _start

  /** Distance from `at` to the next NUL. */
  function ToNul(m: seq<byte>, at: nat): (n: nat)
    requires at <= |m|
    ensures at + n <= |m| && (at + n < |m| ==> m[at + n] == 0) && forall k :: at <= k < at + n ==> m[k] != 0
    decreases |m| - at
  {
    if at == |m| || m[at] == 0 then 0 else 1 + ToNul(m, at + 1)
  }

  /** The argument as C sees it. */
  function UpToNul(arg: Arg): Arg {
    arg[..ToNul(arg, 0)]
  }

  /** UpToNul is the longest prefix without NUL. */
  lemma {:induction false} UpToNulIs(arg: Arg)
    ensures UpToNul(arg) <= arg && NulFree(UpToNul(arg))
    ensures UpToNul(arg) != arg ==> arg[|UpToNul(arg)|] == 0
  {
  }

  ghost predicate NulFree(arg: Arg) {
    forall k :: 0 <= k < |arg| ==> arg[k] != 0
  }

  lemma {:induction false} UpToNulIsAll(arg: Arg)
    ensures UpToNul(arg) == arg <==> NulFree(arg)
  {
    if NulFree(arg) {
      assert ToNul(arg, 0) == |arg|;
    }
  }

  lemma {:induction false} StringEnds(m: seq<byte>, at: nat, arg: Arg)
    requires at + |arg| + 1 <= |m| && m[at..at + |arg| + 1] == arg + [0]
    ensures ToNul(m, at) == ToNul(arg, 0) && m[at..at + ToNul(m, at)] == UpToNul(arg)
  {
    var s := m[at..at + |arg| + 1];
    assert forall k :: 0 <= k < |arg| ==> m[at + k] == s[k] == arg[k];
    assert m[at + |arg|] == s[|arg|] == 0;
    var n, l := ToNul(m, at), ToNul(arg, 0);
    assert n <= |arg| by {
      assert !(at <= at + |arg| < at + n);
    }
    assert n == l;
  }

  /** The loop that looks for the NUL. */
  method Length(page: array<byte>, at: nat) returns (n: nat)
    requires page.Length == PAGE && at <= PAGE && at + ToNul(page[..], at) < PAGE
    ensures n == ToNul(page[..], at)
  {
    n := 0;
    while page[at + n] != 0
      invariant at + n < PAGE && n <= ToNul(page[..], at) && forall k :: at <= k < at + n ==> page[k] != 0
      decreases PAGE - n
    {
      assert page[..][at + n] != 0;
      n := n + 1;
    }
    assert page[..][at + n] == 0;
  }

  /** What the program gets: every argument up to its first NUL. */
  ghost function Seen(args: seq<Arg>): (r: seq<Arg>)
    ensures |r| == |args| && forall i :: 0 <= i < |args| ==> r[i] == UpToNul(args[i])
  {
    seq(|args|, i requires 0 <= i < |args| => UpToNul(args[i]))
  }

  /** The pointer read from the array leads to the string. */
  lemma {:induction false} PointerLeads(m: seq<byte>, base: nat, args: seq<Arg>, i: nat)
    requires Laid(m, base, args, |args|) && i < |args| && base + PAGE <= 0x1_0000_0000_0000_0000
    ensures 0 <= StringAt(args, i) < PAGE && ArrayAt(|args|) + 8 * i + 8 <= PAGE
    ensures Decode(m[ArrayAt(|args|) + 8 * i..ArrayAt(|args|) + 8 * i + 8]) == base + StringAt(args, i)
    ensures StringAt(args, i) + ToNul(m, StringAt(args, i)) < PAGE
    ensures m[StringAt(args, i)..StringAt(args, i) + ToNul(m, StringAt(args, i))] == UpToNul(args[i])
  {
    PointerReadsBack(m, base, args, i);
    LaidAt(m, base, args, |args|, i);
    StringEnds(m, StringAt(args, i), args[i]);
  }

  lemma {:induction false} PointerReadsBack(m: seq<byte>, base: nat, args: seq<Arg>, i: nat)
    requires Laid(m, base, args, |args|) && i < |args| && base + PAGE <= 0x1_0000_0000_0000_0000
    ensures 0 <= StringAt(args, i) < PAGE && ArrayAt(|args|) + 8 * i + 8 <= PAGE
    ensures Decode(m[ArrayAt(|args|) + 8 * i..ArrayAt(|args|) + 8 * i + 8]) == base + StringAt(args, i)
  {
    LaidAt(m, base, args, |args|, i);
    InPage(args, i);
    WordDecodes(m[ArrayAt(|args|) + 8 * i..ArrayAt(|args|) + 8 * i + 8], base + StringAt(args, i));
  }

  /** _start: argc strings found through the pointers at argv. */
  method Start(page: array<byte>, base: nat, argc: nat, argv: nat, ghost args: seq<Arg>) returns (v: seq<Arg>)
    requires page.Length == PAGE && base + PAGE <= 0x1_0000_0000_0000_0000
    requires Laid(page[..], base, args, |args|) && argc == |args| && argv == base + ArrayAt(|args|)
    ensures v == Seen(args)
  {
    v := [];
    var i := 0;
    while i < argc
      invariant i <= argc && v == Seen(args)[..i]
    {
      var arg := ReadArg(page, base, argv, i, args);
      v := v + [arg];
      i := i + 1;
    }
  }

  /** One round of _start: the string that pointer i leads to. */
  method ReadArg(page: array<byte>, base: nat, argv: nat, i: nat, ghost args: seq<Arg>) returns (arg: Arg)
    requires page.Length == PAGE && base + PAGE <= 0x1_0000_0000_0000_0000 && i < |args|
    requires Laid(page[..], base, args, |args|) && argv == base + ArrayAt(|args|)
    ensures arg == UpToNul(args[i])
  {
    PointerLeads(page[..], base, args, i);
    var at := argv - base + 8 * i;
    assert page[..][at..at + 8] == page[at..at + 8];
    var start := Decode(page[at..at + 8]) - base;
    var len := Length(page, start);
    assert page[..][start..start + len] == page[start..start + len];
    arg := page[start..start + len];
  }

  /** The program recovers exactly the arguments it was given if and only if none of them contains a NUL. */
  method ExecThenStart(page: array<byte>, base: nat, args: seq<Arg>) returns (v: seq<Arg>)
    requires page.Length == PAGE && base % PAGE == 0 && base + PAGE <= 0x1_0000_0000_0000_0000 && Fits(args)
    modifies page
    ensures v == Seen(args) && (v == args <==> forall i :: 0 <= i < |args| ==> NulFree(args[i]))
  {
    var sp, argc, argv := Exec(page, base, args);
    v := Start(page, base, argc, argv, args);
    SeenIsAll(args);
  }

  lemma {:induction false} SeenIsAll(args: seq<Arg>)
    ensures Seen(args) == args <==> forall i :: 0 <= i < |args| ==> NulFree(args[i])
  {
    forall i | 0 <= i < |args| ensures Seen(args)[i] == args[i] <==> NulFree(args[i]) {
      UpToNulIsAll(args[i]);
    }
  }
}

/**
 The directive text that the formatter rebuilds for `snprintf`, in the buffer
 sized from the recorded maxima.
 */
module DirectiveBuffer {
  import opened SaturatingSize
  import opened PrintfSyntax
  import opened PrintfDirectives

  function Flag(flags: set<char>, c: char): string {
    if c in flags then [c] else ""
  }

  function FlagText(flags: set<char>): (s: string)
    ensures |s| <= 6
  {
    Flag(flags, '\'') + Flag(flags, '-') + Flag(flags, '+') + Flag(flags, ' ') + Flag(flags, '#') + Flag(flags, '0')
  }

  /** The piece of the format between two pointers. */
  function Slice(fmt: string, start: int, end: int): string {
    if 0 <= start <= end <= |fmt| then fmt[start..end] else ""
  }

  function SizeModifier(ty: ArgType): string {
    match ty
    case LongLongInt => "ll"
    case ULongLongInt => "ll"
    case LongInt => "l"
    case ULongInt => "l"
    case WideChar => "l"
    case WideString => "l"
    case LongDouble => "L"
    case _ => ""
  }

  /** The directive as passed on: flags in a fixed order, width, precision, size, conversion. */
  function Rebuilt(fmt: string, d: Directive, ty: ArgType): string {
    "%" + FlagText(d.flags) + Slice(fmt, d.width_start, d.width_end) + Slice(fmt, d.precision_start, d.precision_end)
    + SizeModifier(ty) + [d.conversion]
  }

  /** Asks `snprintf` for its count, and ends the text. */
  const SUFFIX := "%n\0"

  /** The size computed for the buffer. */
  function Needed(max_width: Size, max_precision: Size): Size {
    Xsum4(7, max_width, max_precision, 6)
  }

  /**
   Whatever the directive, text and suffix fit; the bound is reached by one with every flag, the
   longest width and precision, and a doubled modifier.
   */
  lemma RebuiltFits(fmt: string, d: Directive, ty: ArgType, max_width: Size, max_precision: Size)
    requires Within(d, d.width_start, d.width_end, max_width)
      && Within(d, d.precision_start, d.precision_end, max_precision)
    requires !Overflows(Needed(max_width, max_precision))
    ensures |Rebuilt(fmt, d, ty)| + |SUFFIX| <= Needed(max_width, max_precision)
    ensures |Rebuilt(fmt, d, ty)| + |SUFFIX| == Needed(max_width, max_precision) <==>
      && |FlagText(d.flags)| == 6 && (ty == LongLongInt || ty == ULongLongInt)
      && |Slice(fmt, d.width_start, d.width_end)| == max_width
      && |Slice(fmt, d.precision_start, d.precision_end)| == max_precision
  {
    assert |SizeModifier(ty)| <= 2;
    assert |SizeModifier(ty)| == 2 <==> ty == LongLongInt || ty == ULongLongInt;
    assert |Slice(fmt, d.width_start, d.width_end)| <= max_width;
    assert |Slice(fmt, d.precision_start, d.precision_end)| <= max_precision;
    hide FlagText, Slice, SizeModifier;
  }

  /** `*p++ = c`. */
  method Put(buf: array<char>, p: nat, c: char) returns (p': nat)
    requires p < buf.Length
    modifies buf
    ensures p' == p + 1 && buf[..p'] == old(buf[..p]) + [c]
  {
    buf[p] := c;
    p' := p + 1;
  }

  /** `memcpy` of a piece of the format. */
  method Copy(buf: array<char>, p: nat, fmt: string, start: int, end: int) returns (p': nat)
    requires p + |Slice(fmt, start, end)| <= buf.Length
    requires start == end || 0 <= start < end <= |fmt|
    modifies buf
    ensures p' == p + |Slice(fmt, start, end)| && buf[..p'] == old(buf[..p]) + Slice(fmt, start, end)
  {
    p' := p;
    if start != end {
      ghost var was := buf[..p];
      for i := start to end
        invariant p' == p + i - start && buf[..p'] == was + fmt[start..i]
      {
        buf[p'] := fmt[i];
        p' := p' + 1;
      }
    }
  }

  method PutFlag(buf: array<char>, p: nat, flags: set<char>, c: char) returns (p': nat)
    requires p < buf.Length
    modifies buf
    ensures p' == p + |Flag(flags, c)| <= p + 1 && buf[..p'] == old(buf[..p]) + Flag(flags, c)
  {
    p' := p;
    if c in flags {
      p' := Put(buf, p, c);
    }
  }

  /** The percent sign and the flags. */
  method PutFlags(buf: array<char>, flags: set<char>) returns (p: nat)
    requires buf.Length >= 7
    modifies buf
    ensures p == 1 + |FlagText(flags)| && buf[..p] == "%" + FlagText(flags)
  {
    hide Flag;
    p := Put(buf, 0, '%');
    p := PutFlag(buf, p, flags, '\'');
    p := PutFlag(buf, p, flags, '-');
    p := PutFlag(buf, p, flags, '+');
    p := PutFlag(buf, p, flags, ' ');
    p := PutFlag(buf, p, flags, '#');
    p := PutFlag(buf, p, flags, '0');
  }

  method PutSize(buf: array<char>, p: nat, ty: ArgType) returns (p': nat)
    requires p + 2 <= buf.Length
    modifies buf
    ensures p' == p + |SizeModifier(ty)| && buf[..p'] == old(buf[..p]) + SizeModifier(ty)
  {
    p' := p;
    if ty == LongLongInt || ty == ULongLongInt {
      p' := Put(buf, p', 'l');
      p' := Put(buf, p', 'l');
    } else if ty == LongInt || ty == ULongInt || ty == WideChar || ty == WideString {
      p' := Put(buf, p', 'l');
    } else if ty == LongDouble {
      p' := Put(buf, p', 'L');
    }
  }

  /** The conversion character and what makes `snprintf` store its count. */
  method PutConversion(buf: array<char>, p: nat, c: char)
    requires p + 4 <= buf.Length
    modifies buf
    ensures buf[..p + 4] == old(buf[..p]) + [c] + SUFFIX
  {
    buf[p] := c;
    buf[p + 1] := '%';
    buf[p + 2] := 'n';
    buf[p + 3] := '\0';
  }

  /** Rebuilds directive d in buf; p is where the conversion character stands. */
  method Rebuild(fmt: string, d: Directive, ty: ArgType, max_width: Size, max_precision: Size, buf: array<char>)
    returns (p: nat)
    requires d.dir_end <= |fmt|
    requires Within(d, d.width_start, d.width_end, max_width)
      && Within(d, d.precision_start, d.precision_end, max_precision)
    requires !Overflows(Needed(max_width, max_precision)) && buf.Length == Needed(max_width, max_precision)
    modifies buf
    ensures p + 4 <= buf.Length && buf[..p + 4] == Rebuilt(fmt, d, ty) + SUFFIX && p + 1 == |Rebuilt(fmt, d, ty)|
  {
    RebuiltFits(fmt, d, ty, max_width, max_precision);
    p := PutFlags(buf, d.flags);
    hide FlagText;
    p := Copy(buf, p, fmt, d.width_start, d.width_end);
    p := Copy(buf, p, fmt, d.precision_start, d.precision_end);
    hide Slice;
    p := PutSize(buf, p, ty);
    hide SizeModifier;
    PutConversion(buf, p, d.conversion);
  }
}

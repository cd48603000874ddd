/**
  The trace info record of the current version (`_CmakeTraceInfo`) and its two
  renderings: the plain one and the fixed-width one that shortens long file paths with
  an ellipsis in the middle and pads short ones with dots.
*/
module TraceText {
  import opened Wrappers

  datatype TraceInfo = TraceInfo(file: string, line: int, code: string)

  /** The rendering fails like the program's `assert file_width >= 5`. */
  datatype RenderError = FieldTooNarrow

  /** Decimal digits of a natural number, as `str` writes them. */
  function NatString(n: nat): (s: string)
    ensures |s| >= 1 && forall k :: 0 <= k < |s| ==> '0' <= s[k] <= '9'
  {
    if n < 10 then ['0' + n as char] else NatString(n / 10) + ['0' + (n % 10) as char]
  }

  /** `str(n)` for an integer. */
  function IntString(n: int): string
  {
    if n < 0 then "-" + NatString(-n) else NatString(n)
  }

  /** The value of a string of decimal digits. */
  function DigitsValue(s: string): nat
    requires forall k :: 0 <= k < |s| ==> '0' <= s[k] <= '9'
  {
    if s == [] then 0 else 10 * DigitsValue(s[..|s| - 1]) + (s[|s| - 1] - '0') as nat
  }

  /** `str` of a natural number reads back as that number. */
  lemma {:induction false} NatStringValue(n: nat)
    ensures DigitsValue(NatString(n)) == n
  {
    if n >= 10 {
      NatStringValue(n / 10);
      var s := NatString(n);
      assert s[..|s| - 1] == NatString(n / 10);
    }
  }

  function Dots(k: nat): (s: string)
    ensures |s| == k && forall i :: 0 <= i < k ==> s[i] == '.'
  {
    if k == 0 then "" else Dots(k - 1) + "."
  }

  /** `s.ljust(w, '.')`. */
  function PadDots(s: string, w: int): string
  {
    if w <= |s| then s else s + Dots(w - |s|)
  }

  /**
    The file field of `to_string_adjusted`: a path longer than the field keeps its first
    `w / 2 - 1` and its last `w / 2 - 2` characters around "...", which needs a field of
    at least 5 characters; the result is padded with dots to the field width.
  */
  function AdjustFile(file: string, w: int): Result<string, RenderError>
  {
    if w < |file| then
      if w < 5 then Err(FieldTooNarrow)
      else
        var half := w / 2;
        Ok(PadDots(file[..half - 1] + "..." + file[|file| + 2 - half..], w))
    else Ok(PadDots(file, w))
  }

  /**
    The file field fails exactly when the path is longer than the field and the field is
    narrower than 5; otherwise it is exactly `w` characters long and is either the whole
    path followed by dots, or a head and a tail of the path joined by "..." (followed by
    one dot when `w` is odd).
  */
  lemma AdjustFileShape(file: string, w: int)
    ensures AdjustFile(file, w).Err? <==> w < |file| && w < 5
    ensures AdjustFile(file, w).Ok? ==> |AdjustFile(file, w).value| == w
    ensures w >= |file| ==> AdjustFile(file, w).value == file + Dots(w - |file|)
    ensures 5 <= w < |file| ==>
              var f, h := AdjustFile(file, w).value, w / 2;
              && f[..h - 1] == file[..h - 1]
              && f[h - 1..h + 2] == "..."
              && f[h + 2..2 * h] == file[|file| + 2 - h..]
              && f[2 * h..] == Dots(w - 2 * h)
  {
    if 5 <= w < |file| {
      var h := w / 2;
      var core := file[..h - 1] + "..." + file[|file| + 2 - h..];
      assert |core| == 2 * h;
      var f := PadDots(core, w);
      assert f == core + Dots(w - 2 * h);
      assert f[..h - 1] == core[..h - 1];
      assert f[h - 1..h + 2] == core[h - 1..h + 2];
      assert f[h + 2..2 * h] == core[h + 2..];
    }
  }

  /** `to_string_plain`: `[nesting]file(line):  code`. */
  function ToStringPlain(ti: TraceInfo, nesting: string): string
  {
    "[" + nesting + "]" + ti.file + "(" + IntString(ti.line) + "):  " + ti.code
  }

  /** `to_string_adjusted`: the file field gets whatever `width` leaves after the line number
      and the nesting. */
  function ToStringAdjusted(ti: TraceInfo, width: int, nesting: string): Result<string, RenderError>
  {
    var w := width - (|IntString(ti.line)| + |nesting|);
    match AdjustFile(ti.file, w)
    case Err(e) => Err(e)
    case Ok(f) => Ok("[" + nesting + "]" + f + "(" + IntString(ti.line) + "):  " + ti.code)
  }

  /**
    The renderer chosen by `-w`: plain without a width, adjusted with one. An adjusted
    label puts exactly `width` characters into nesting, file field and line number, so
    labels line up; when the path fits the field exactly it is the plain label.
  */
  function Label(ti: TraceInfo, width: Option<int>, nesting: string): Result<string, RenderError>
  {
    match width
    case None => Ok(ToStringPlain(ti, nesting))
    case Some(w) => ToStringAdjusted(ti, w, nesting)
  }

  lemma LabelWidth(ti: TraceInfo, width: int, nesting: string)
    ensures var w := width - (|IntString(ti.line)| + |nesting|);
            Label(ti, Some(width), nesting).Err? <==> w < |ti.file| && w < 5
    ensures Label(ti, Some(width), nesting).Ok? ==>
              |Label(ti, Some(width), nesting).value| == width + 7 + |ti.code|
    ensures width == |IntString(ti.line)| + |nesting| + |ti.file| ==>
              Label(ti, Some(width), nesting) == Label(ti, None, nesting)
  {
    AdjustFileShape(ti.file, width - (|IntString(ti.line)| + |nesting|));
  }
}

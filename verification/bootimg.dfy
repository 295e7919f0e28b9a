/** `tools/unpackbootimg.py`: split an Android boot image (header version
    0) into its kernel, ramdisk, second stage and device-tree blob, and
    recover the kernel command line. */
module BootImg {
  import opened Wrappers
  import opened Bytes
  import opened Text
  import opened Fdt

  /** Bytes of the `<8s10I16s512s32s1024s` header. */
  const HeaderSize: nat := 1632

  const BootMagic: seq<byte> := [0x41, 0x4e, 0x44, 0x52, 0x4f, 0x49, 0x44, 0x21]

  /** `header[k]` for the ten 32-bit fields, `k` in 1..10. */
  function Field(h: seq<byte>, k: nat): (r: nat)
    requires |h| >= HeaderSize && 1 <= k <= 10
    ensures r < 0x1_0000_0000
  {
    Le32At(h, 4 + 4 * k)
  }

  // ---------------------------------------------------------------------
  // Page arithmetic

  /** Python's `a & ~m` for non-negative `a` and `m`: the bits of `a` not set in `m`. */
  function AndNot(a: nat, m: nat): (r: nat)
    ensures r <= a
  {
    if a == 0 then 0
    else 2 * AndNot(a / 2, m / 2) + (if a % 2 == 1 && m % 2 == 0 then 1 else 0)
  }

  /** `x` is a multiple of `2^k`: its low `k` bits are clear. */
  predicate Aligned(x: nat, k: nat)
  {
    k == 0 || (x % 2 == 0 && Aligned(x / 2, k - 1))
  }

  /** Clearing the low `k` bits rounds down to a multiple of `2^k`. */
  lemma {:induction false} AndNotLowBits(a: nat, k: nat)
    ensures Aligned(AndNot(a, Pow(2, k) - 1), k)
    ensures a < AndNot(a, Pow(2, k) - 1) + Pow(2, k)
    decreases k
  {
    var p := Pow(2, k);
    if k == 0 {
      AndNotZero(a);
    } else {
      var q := Pow(2, k - 1);
      assert p == 2 * q;
      assert (p - 1) / 2 == q - 1 && (p - 1) % 2 == 1;
      AndNotLowBits(a / 2, k - 1);
      var r' := AndNot(a / 2, q - 1);
      assert AndNot(a, p - 1) == 2 * r';
      assert (2 * r') / 2 == r';
    }
  }

  /** Nothing is cleared by an empty mask. */
  lemma {:induction false} AndNotZero(a: nat)
    ensures AndNot(a, 0) == a
  {
    if a > 0 {
      AndNotZero(a / 2);
    }
  }

  lemma {:induction false} AlignedAdd(x: nat, y: nat, k: nat)
    requires Aligned(x, k) && Aligned(y, k)
    ensures Aligned(x + y, k)
    decreases k
  {
    if k > 0 {
      AlignedAdd(x / 2, y / 2, k - 1);
      assert (x + y) / 2 == x / 2 + y / 2;
    }
  }

  lemma {:induction false} PageAligned(k: nat)
    ensures Aligned(Pow(2, k), k)
    decreases k
  {
    if k > 0 {
      PageAligned(k - 1);
      assert Pow(2, k) / 2 == Pow(2, k - 1);
    }
  }

  /** The distance from one section to the next:
      `(size + page_mask) & ~page_mask`, which is 0 for a page size of 0. */
  function Step(size: nat, page: nat): (r: nat)
    ensures page == 0 ==> r == 0
    ensures page > 0 ==> r < size + page
  {
    if page == 0 then 0 else AndNot(size + page - 1, page - 1)
  }

  /** For a page size that is a power of two the step is the section size
      rounded up to whole pages. */
  lemma StepRoundsUp(size: nat, k: nat)
    ensures var page := Pow(2, k);
      Aligned(Step(size, page), k) && size <= Step(size, page) < size + page
  {
    var page := Pow(2, k);
    AndNotLowBits(size + page - 1, k);
  }

  // ---------------------------------------------------------------------
  // Unpacking

  /** `f.seek(pos); f.read(size)`: at most `size` bytes from `pos`, fewer
      at the end of the file. */
  function Read(img: seq<byte>, pos: nat, size: nat): (r: seq<byte>)
    ensures |r| <= size
    ensures pos + size <= |img| ==> r == img[pos..pos + size]
  {
    var lo := if pos < |img| then pos else |img|;
    var hi := if pos + size < |img| then pos + size else |img|;
    img[lo..hi]
  }

  /** Where a section was found and what it holds. */
  datatype Section = Section(offset: nat, data: seq<byte>)

  datatype BootImage = BootImage(kernel: Option<Section>, ramdisk: Option<Section>,
                                 second: Option<Section>, dtb: Option<Section>, cmdline: string)

  /** The sections in image order. */
  function Sections(b: BootImage): seq<Option<Section>>
  {
    [b.kernel, b.ramdisk, b.second, b.dtb]
  }

  /** The header size field of section `i` (kernel, ramdisk, second, dtb). */
  function SizeField(h: seq<byte>, i: nat): nat
    requires |h| >= HeaderSize && i < 4
  {
    Field(h, [1, 3, 5, 9][i])
  }

  /** Section `i` is extracted: a size of 0 means absent, and the device
      tree also needs a size above 1. */
  predicate Taken(h: seq<byte>, i: nat)
    requires |h| >= HeaderSize && i < 4
  {
    if i < 3 then SizeField(h, i) != 0 else SizeField(h, i) > 1
  }

  /** The offset of section `i`: the first page, plus the rounded size of
      every earlier section that was extracted. */
  function Offset(h: seq<byte>, i: nat): (r: nat)
    requires |h| >= HeaderSize && i <= 4
    ensures r >= Field(h, 8)
    ensures Field(h, 8) == 0 ==> r == 0
  {
    if i == 0 then Field(h, 8)
    else Offset(h, i - 1) + (if Taken(h, i - 1) then Step(SizeField(h, i - 1), Field(h, 8)) else 0)
  }

  function Extract(img: seq<byte>, h: seq<byte>, i: nat): Option<Section>
    requires |h| >= HeaderSize && i < 4
  {
    if Taken(h, i) then Some(Section(Offset(h, i), Read(img, Offset(h, i), SizeField(h, i)))) else None
  }

  /** The command line: the two NUL-padded header fields without their
      padding, joined. */
  function Cmdline(h: seq<byte>): (r: string)
    requires |h| >= HeaderSize
    ensures |r| <= 512 + 1024
  {
    RStrip(Chars(h[64..576]), '\0') + RStrip(Chars(h[608..1632]), '\0')
  }

  /** `unpack_image`: the header must be complete and start with the boot
      magic; kernel, ramdisk and second stage follow from the first page
      on, each taken when its size is not 0, and the device tree when its
      size is above 1. */
  function Unpack(img: seq<byte>): (r: Result<BootImage>)
    ensures |img| < HeaderSize ==> r == Fail(Truncated)
    ensures r.Ok? <==> |img| >= HeaderSize && img[..8] == BootMagic
    ensures r.Ok? ==> forall i :: 0 <= i < 4 ==> Sections(r.value)[i] == Extract(img, img[..HeaderSize], i)
    ensures r.Ok? ==> r.value.cmdline == Cmdline(img[..HeaderSize])
  {
    if |img| < HeaderSize then Fail(Truncated)
    else if img[..8] != BootMagic then Fail(Rejected("Android boot image"))
    else
      var h := img[..HeaderSize];
      Ok(BootImage(Extract(img, h, 0), Extract(img, h, 1), Extract(img, h, 2), Extract(img, h, 3), Cmdline(h)))
  }

  /** With a power-of-two page size section offsets stay on page
      boundaries and each extracted section ends before the next offset. */
  lemma {:induction false} OffsetsAligned(h: seq<byte>, k: nat, i: nat)
    requires |h| >= HeaderSize && i <= 4 && Field(h, 8) == Pow(2, k)
    ensures Aligned(Offset(h, i), k) && Offset(h, i) >= Pow(2, k)
    ensures i < 4 && Taken(h, i) ==> Offset(h, i) + SizeField(h, i) <= Offset(h, i + 1)
    ensures i < 4 ==> Offset(h, i) <= Offset(h, i + 1)
    decreases i
  {
    if i == 0 {
      PageAligned(k);
    } else {
      OffsetsAligned(h, k, i - 1);
      if Taken(h, i - 1) {
        StepRoundsUp(SizeField(h, i - 1), k);
        AlignedAdd(Offset(h, i - 1), Step(SizeField(h, i - 1), Pow(2, k)), k);
      }
    }
    if i < 4 && Taken(h, i) {
      StepRoundsUp(SizeField(h, i), k);
    }
  }

  /** Offsets never decrease. */
  lemma {:induction false} OffsetsOrdered(h: seq<byte>, i: nat, j: nat)
    requires |h| >= HeaderSize && i <= j <= 4
    ensures Offset(h, i) <= Offset(h, j)
    decreases j - i
  {
    if i < j {
      OffsetsOrdered(h, i, j - 1);
    }
  }

  /** With a power-of-two page size every extracted section starts on a
      page boundary after the header page, holds its header size of bytes
      when the image is long enough, and ends before any later section. */
  lemma SectionsLaidOut(img: seq<byte>, k: nat, i: nat, j: nat)
    requires Unpack(img).Ok? && Field(img[..HeaderSize], 8) == Pow(2, k)
    requires i < j < 4
    ensures var h := img[..HeaderSize];
      var s := Sections(Unpack(img).value)[i];
      s.Some? ==>
        s.value.offset >= Pow(2, k) && Aligned(s.value.offset, k)
        && (s.value.offset + SizeField(h, i) <= |img| ==> s.value.data == img[s.value.offset..s.value.offset + SizeField(h, i)])
        && (Sections(Unpack(img).value)[j].Some? ==> s.value.offset + SizeField(h, i) <= Sections(Unpack(img).value)[j].value.offset)
  {
    var h := img[..HeaderSize];
    OffsetsAligned(h, k, i);
    OffsetsOrdered(h, i + 1, j);
  }

  // ---------------------------------------------------------------------
  // The command line

  /** Stripping the padding of a NUL-padded text gives the text back, if
      the text itself does not end in NUL. */
  lemma {:induction false} RStripPadded(t: string, n: nat)
    requires |t| == 0 || t[|t| - 1] != '\0'
    ensures RStrip(t + Repeat('\0', n), '\0') == t
    decreases n
  {
    var s := t + Repeat('\0', n);
    if n > 0 {
      assert s[..|s| - 1] == t + Repeat('\0', n - 1);
      RStripPadded(t, n - 1);
    } else {
      assert s == t;
    }
  }

  /** A command line written into the two header fields, split where the
      first field is full, reads back unchanged. */
  lemma CmdlineRoundTrip(h: seq<byte>, a: seq<byte>, b: seq<byte>)
    requires |h| >= HeaderSize && |a| <= 512 && |b| <= 1024
    requires NoNul(a) && NoNul(b)
    requires h[64..576] == a + Zeros(512 - |a|)
    requires h[608..1632] == b + Zeros(1024 - |b|)
    ensures Cmdline(h) == Chars(a) + Chars(b)
  {
    FieldText(h[64..576], a);
    FieldText(h[608..1632], b);
  }

  /** One NUL-padded field reads back as its text. */
  lemma FieldText(f: seq<byte>, a: seq<byte>)
    requires |a| <= |f| && NoNul(a) && f == a + Zeros(|f| - |a|)
    ensures RStrip(Chars(f), '\0') == Chars(a)
  {
    CharsPadded(a, |f| - |a|);
    RStripPadded(Chars(a), |f| - |a|);
  }

  function Zeros(n: nat): (r: seq<byte>)
    ensures |r| == n && forall i :: 0 <= i < n ==> r[i] == 0
  {
    if n == 0 then [] else [0] + Zeros(n - 1)
  }

  lemma CharsPadded(a: seq<byte>, n: nat)
    requires NoNul(a)
    ensures Chars(a + Zeros(n)) == Chars(a) + Repeat('\0', n)
    ensures |Chars(a)| == 0 || Chars(a)[|Chars(a)| - 1] != '\0'
  {
    var l := Chars(a + Zeros(n));
    var r := Chars(a) + Repeat('\0', n);
    assert |l| == |r|;
    forall i | 0 <= i < |l|
      ensures l[i] == r[i]
    {
      if i < |a| {
        assert (a + Zeros(n))[i] == a[i];
        assert l[i] as int == r[i] as int;
      } else {
        assert (a + Zeros(n))[i] == 0;
        assert l[i] as int == 0;
      }
    }
    if |a| > 0 {
      assert Chars(a)[|a| - 1] as int == a[|a| - 1];
    }
  }
}

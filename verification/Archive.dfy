/** Archives in the format of `ar`: building one in memory, and reading it back. */
module Archive {
  import opened Options
  import opened Words

  const SPACE: byte := 0x20
  const SLASH: byte := 0x2f
  const ZERO: byte := 0x30
  const PADDING_CHAR: byte := 0x0a

  const AR_HEADER: seq<byte> := [0x21, 0x3c, 0x61, 0x72, 0x63, 0x68, 0x3e, 0x0a]
  const ENDING_CHARS: seq<byte> := [0x60, 0x0a]

  const NAME_OFFSET: nat := 0
  const TIMESTAMP_OFFSET: nat := 16
  const OWNER_ID_OFFSET: nat := 28
  const GROUP_ID_OFFSET: nat := 34
  const MODE_OFFSET: nat := 40
  const BYTE_SIZE_OFFSET: nat := 48
  const ENDING_CHARS_OFFSET: nat := 58
  const FILE_HEADER_SIZE: nat := 60
  const NAME_SIZE: nat := 16
  const BYTE_SIZE_SIZE: nat := 10

  const MODE: nat := 420  // octal 644
  const INT_MAX: nat := 0x7fff_ffff

  datatype File = File(name: seq<byte>, content: seq<byte>)

  /** Names are strings that end at a zero, and sizes are ints. */
  ghost predicate Storable(file: File)
  {
    (forall i :: 0 <= i < |file.name| ==> file.name[i] != 0) && |file.content| <= INT_MAX
  }

  // ----- Numbers ----------------------------------------------------------------------------

  function Digits(n: nat, radix: nat): (r: seq<byte>)
    requires (radix == 8 || radix == 10)
    ensures |r| > 0 && forall i :: 0 <= i < |r| ==> ZERO <= r[i] < ZERO + radix
  {
    if n < radix then [(ZERO + n) as byte] else Digits(n / radix, radix) + [(ZERO + n % radix) as byte]
  }

  function Power(radix: nat, k: nat): nat
  {
    if k == 0 then 1 else radix * Power(radix, k - 1)
  }

  function Value(digits: seq<byte>): nat
    requires forall i :: 0 <= i < |digits| ==> digits[i] >= ZERO
  {
    if digits == [] then 0
    else 10 * Value(digits[..|digits| - 1]) + (digits[|digits| - 1] as nat - ZERO as nat)
  }

  lemma {:induction false} ValueOfDigits(n: nat)
    ensures Value(Digits(n, 10)) == n
  {
    var digits := Digits(n, 10);
    if n >= 10 {
      ValueOfDigits(n / 10);
      assert digits[..|digits| - 1] == Digits(n / 10, 10);
    } else {
      assert digits[..|digits| - 1] == [];
    }
  }

  /** What remains of a number after one digit needs one place less. */
  lemma QuotientFits(n: nat, radix: nat, k: nat)
    requires (radix == 8 || radix == 10) && k > 0 && n < Power(radix, k)
    ensures n / radix < Power(radix, k - 1)
  {
    assert Power(radix, k) == Power(radix, k - 1) * radix;
    QuotientBelow(n, radix, Power(radix, k - 1));
  }

  function LastDigit(n: nat, radix: nat): byte
    requires (radix == 8 || radix == 10)
  {
    ZERO as nat + n % radix
  }

  /** The digits of a number that fits into some places, without the last digit. */
  lemma DigitsEnd(n: nat, radix: nat, places: nat)
    requires (radix == 8 || radix == 10) && places > 0 && n < Power(radix, places)
    ensures n / radix < Power(radix, places - 1)
    ensures n / radix == 0 ==> Digits(n, radix) == [LastDigit(n, radix)]
    ensures n / radix != 0 ==> places > 1 && Digits(n, radix) == Digits(n / radix, radix) + [LastDigit(n, radix)]
  {
    QuotientFits(n, radix, places);
    if radix == 8 {
      assert n / 8 == 0 <==> n < 8;
    } else {
      assert n / 10 == 0 <==> n < 10;
    }
  }

  // ----- The format -------------------------------------------------------------------------

  /** Cut off, or filled up with spaces. */
  function Field(text: seq<byte>, length: nat): (r: seq<byte>)
    ensures |r| == length
    ensures forall i :: 0 <= i < length ==> r[i] == if i < |text| then text[i] else SPACE
  {
    seq(length, i requires 0 <= i => if i < |text| then text[i] else SPACE)
  }

  function Header(file: File): (r: seq<byte>)
    ensures |r| == FILE_HEADER_SIZE
  {
    Field(file.name, 16) + Field(Digits(0, 10), 12) + Field(Digits(0, 10), 6) + Field(Digits(0, 10), 6)
    + Field(Digits(MODE, 8), 8) + Field(Digits(|file.content|, 10), 10) + ENDING_CHARS
  }

  function Padding(size: nat): seq<byte>
  {
    if size % 2 != 0 then [PADDING_CHAR] else []
  }

  function Entry(file: File): (r: seq<byte>)
    ensures |r| == FILE_HEADER_SIZE + |file.content| + |file.content| % 2
  {
    Header(file) + file.content + Padding(|file.content|)
  }

  function Entries(files: seq<File>): seq<byte>
  {
    if files == [] then [] else Entry(files[0]) + Entries(files[1..])
  }

  /** An archive with a file `ab` of three bytes. */
  lemma ArchiveBytes()
    ensures AR_HEADER == [0x21, 0x3c, 0x61, 0x72, 0x63, 0x68, 0x3e, 0x0a]
    ensures Entry(File([0x61, 0x62], [1, 2, 3])) ==
      [0x61, 0x62] + Spaces(14) + ([0x30] + Spaces(11)) + ([0x30] + Spaces(5)) + ([0x30] + Spaces(5))
      + ([0x36, 0x34, 0x34] + Spaces(5)) + ([0x33] + Spaces(9)) + [0x60, 0x0a] + [1, 2, 3] + [0x0a]
  {
    hide Digits, Field, Spaces;
    DigitsHere();
    FilledUp([0x61, 0x62], 16);
    FilledUp([0x30], 12);
    FilledUp([0x30], 6);
    FilledUp([0x36, 0x34, 0x34], 8);
    FilledUp([0x33], 10);
  }

  lemma FilledUp(text: seq<byte>, length: nat)
    requires |text| <= length
    ensures Field(text, length) == text + Spaces(length - |text|)
  {
  }

  function Spaces(n: nat): (r: seq<byte>)
    ensures |r| == n
  {
    seq(n, _ => SPACE)
  }

  lemma DigitsHere()
    ensures Digits(0, 10) == [0x30] && Digits(3, 10) == [0x33] && Digits(MODE, 8) == [0x36, 0x34, 0x34]
  {
    assert Digits(6, 8) == [0x36];
    assert Digits(52, 8) == Digits(6, 8) + [0x34];
    assert Digits(420, 8) == Digits(52, 8) + [0x34];
  }

  lemma {:induction false} EntriesSnoc(files: seq<File>, file: File)
    ensures Entries(files + [file]) == Entries(files) + Entry(file)
  {
    hide Entry;
    if files == [] {
      assert [file][1..] == [];
    } else {
      EntriesSnoc(files[1..], file);
      assert (files + [file])[1..] == files[1..] + [file];
      ConcatAssociates(Entry(files[0]), Entries(files[1..]), Entry(file));
    }
  }

  lemma {:induction false} EntriesGrow(files: seq<File>, i: nat)
    requires i < |files|
    ensures |Entries(files[..i])| + |Entry(files[i])| <= |Entries(files)|
  {
    hide Entry;
    if i == 0 {
      assert files[..0] == [];
    } else {
      EntriesGrow(files[1..], i - 1);
      assert files[..i][1..] == files[1..][..i - 1] && files[1..][i - 1] == files[i];
    }
  }

  // ----- Writing ----------------------------------------------------------------------------

  /** The array is as before, except for a field that now holds the text. */
  ghost predicate Wrote(now: seq<byte>, before: seq<byte>, offset: nat, text: seq<byte>)
  {
    && |now| == |before| && offset + |text| <= |before|
    && forall p :: 0 <= p < |now| ==> now[p] == if offset <= p < offset + |text| then text[p - offset] else before[p]
  }

  lemma WroteTwice(a: seq<byte>, b: seq<byte>, c: seq<byte>, offset: nat, first: seq<byte>, second: seq<byte>)
    requires Wrote(b, a, offset, first) && Wrote(c, b, offset + |first|, second)
    ensures Wrote(c, a, offset, first + second)
  {
  }

  method WriteString(buffer: array<byte>, offset: nat, text: seq<byte>, length: nat)
    requires offset + length <= buffer.Length
    modifies buffer
    ensures Wrote(buffer[..], old(buffer[..]), offset, Field(text, length))
  {
    var next := 0;
    for i := 0 to length
      invariant next == if i < |text| then i else |text|
      invariant Wrote(buffer[..], old(buffer[..]), offset, Field(text, length)[..i])
    {
      var c := SPACE;
      if next < |text| {
        c := text[next];
        next := next + 1;
      }
      buffer[offset + i] := c;
    }
  }

  /** Writes the digits from right to left, until there are no more digits or no more places. */
  method WriteDigits(buffer: array<byte>, offset: nat, number: nat, length: nat, radix: nat) returns (first: int)
    requires offset + length <= buffer.Length && (radix == 8 || radix == 10) && length > 0
    modifies buffer
    ensures number < Power(radix, length) ==>
      && 0 <= first < length && length - first == |Digits(number, radix)|
      && Wrote(buffer[..], old(buffer[..]), offset + first, Digits(number, radix))
    ensures number >= Power(radix, length) ==>
      first == -1 && forall p :: 0 <= p < buffer.Length && !(offset <= p < offset + length) ==> buffer[p] == old(buffer[p])
  {
    hide Digits, Power, LastDigit;
    ghost var digits, fits := Digits(number, radix), number < Power(radix, length);
    first := length - 1;
    var rest := number;
    ghost var done: seq<byte> := [];
    while first >= 0
      invariant 0 <= rest && if fits then 0 <= first < length else -1 <= first < length
      invariant fits ==>
        && |done| == length - 1 - first && digits == Digits(rest, radix) + done && rest < Power(radix, first + 1)
        && Wrote(buffer[..], old(buffer[..]), offset + first + 1, done)
      invariant !fits ==>
        && rest >= Power(radix, first + 1)
        && forall p :: 0 <= p < buffer.Length && !(offset <= p < offset + length) ==> buffer[p] == old(buffer[p])
      decreases first
    {
      if fits { DigitsEnd(rest, radix, first + 1); } else { StillTooLarge(rest, radix, first); }
      buffer[offset + first] := LastDigit(rest, radix);
      done := [LastDigit(rest, radix)] + done;
      rest := rest / radix;
      if rest == 0 {
        break;
      }
      first := first - 1;
    }
  }

  lemma StillTooLarge(rest: nat, radix: nat, k: nat)
    requires (radix == 8 || radix == 10) && rest >= Power(radix, k + 1)
    ensures rest / radix >= Power(radix, k) > 0
  {
    hide Power;
    PowerStep(radix, k);
    DivideAtLeast(rest, radix, Power(radix, k));
  }

  lemma {:induction false} PowerStep(radix: nat, k: nat)
    requires radix > 0
    ensures Power(radix, k + 1) == radix * Power(radix, k) && Power(radix, k) > 0
  {
    if k == 0 {
    } else {
      PowerStep(radix, k - 1);
      Positive(radix, Power(radix, k - 1));
    }
  }

  lemma Positive(a: nat, b: nat)
    requires a > 0 && b > 0
    ensures a * b > 0
  {
  }

  lemma DivideAtLeast(n: nat, radix: nat, p: nat)
    requires (radix == 8 || radix == 10) && n >= radix * p
    ensures n / radix >= p
  {
    if radix == 8 {
      assert n >= 8 * p;
    } else {
      assert n >= 10 * p;
    }
  }

  /** A number, left-aligned, if there are places for all of its digits.  If there are not, then the
      digits are not cut off: every place, and the byte behind them, gets the byte before. */
  method WriteNumber(buffer: array<byte>, offset: nat, number: nat, length: nat, radix: nat)
    requires offset + length <= buffer.Length && (radix == 8 || radix == 10) && length > 0
    requires number >= Power(radix, length) ==> 0 < offset && offset + length < buffer.Length
    modifies buffer
    ensures number < Power(radix, length) ==> Wrote(buffer[..], old(buffer[..]), offset, Field(Digits(number, radix), length))
    ensures number >= Power(radix, length) ==>
      forall p :: 0 <= p < buffer.Length ==>
        buffer[p] == if offset <= p <= offset + length then old(buffer[offset - 1]) else old(buffer[p])
  {
    hide Digits, Power;
    var first := WriteDigits(buffer, offset, number, length, radix);
    ghost var written := buffer[..];
    MoveDigits(buffer, offset, first, length);
    if first >= 0 {
      ghost var digits := Digits(number, radix);
      assert forall k :: 0 <= k < length - first ==> written[offset + first + k] == digits[k];
    }
  }

  /** To the front, and spaces behind. */
  method MoveDigits(buffer: array<byte>, offset: nat, first: int, length: nat)
    requires offset + length <= buffer.Length && -1 <= first < length
    requires first < 0 ==> 0 < offset && offset + length < buffer.Length
    modifies buffer
    ensures first >= 0 ==> forall p :: 0 <= p < buffer.Length ==>
      buffer[p] == if offset <= p < offset + (length - first) then old(buffer[p + first])
                   else if offset <= p < offset + length then SPACE else old(buffer[p])
    ensures first < 0 ==> forall p :: 0 <= p < buffer.Length ==>
      buffer[p] == if offset <= p <= offset + length then old(buffer[offset - 1]) else old(buffer[p])
  {
    var count := length - first;
    var j := 0;
    while j < count
      invariant 0 <= j <= count
      invariant first >= 0 ==> forall p :: 0 <= p < buffer.Length ==>
        buffer[p] == if offset <= p < offset + j then old(buffer[p + first]) else old(buffer[p])
      invariant first < 0 ==> forall p :: 0 <= p < buffer.Length ==>
        buffer[p] == if offset <= p < offset + j then old(buffer[offset - 1]) else old(buffer[p])
    {
      buffer[offset + j] := buffer[offset + j + first];
      j := j + 1;
    }
    while j < length
      invariant first >= 0 ==> count <= j <= length && forall p :: 0 <= p < buffer.Length ==>
        buffer[p] == if offset <= p < offset + count then old(buffer[p + first])
                     else if offset <= p < offset + j then SPACE else old(buffer[p])
      invariant first < 0 ==> j == length + 1 && forall p :: 0 <= p < buffer.Length ==>
        buffer[p] == if offset <= p <= offset + length then old(buffer[offset - 1]) else old(buffer[p])
    {
      buffer[offset + j] := SPACE;
      j := j + 1;
    }
  }

  lemma NumbersFit(size: nat)
    requires size <= INT_MAX
    ensures 0 < Power(10, 12) && 0 < Power(10, 6) && MODE < Power(8, 8) && size < Power(10, 10)
  {
    assert Power(10, 5) == 100_000;
    assert Power(10, 10) == 10 * (10 * (10 * (10 * (10 * Power(10, 5)))));
    assert Power(10, 12) == 10 * (10 * Power(10, 10));
    assert Power(8, 4) == 4096;
    assert Power(8, 8) == 8 * (8 * (8 * (8 * Power(8, 4))));
  }

  method WriteHeader(buffer: array<byte>, offset: nat, name: seq<byte>, size: nat, ghost file: File)
    requires offset + FILE_HEADER_SIZE <= buffer.Length && size <= INT_MAX
    requires file.name == name && |file.content| == size
    modifies buffer
    ensures Wrote(buffer[..], old(buffer[..]), offset, Header(file))
  {
    hide Wrote, Field, Digits, Power;
    NumbersFit(size);
    ghost var b0 := buffer[..];
    WriteString(buffer, offset + NAME_OFFSET, name, 16);
    ghost var b1, text := buffer[..], Field(name, 16);
    WriteNumber(buffer, offset + TIMESTAMP_OFFSET, 0, 12, 10);
    WroteTwice(b0, b1, buffer[..], offset, text, Field(Digits(0, 10), 12));
    b1, text := buffer[..], text + Field(Digits(0, 10), 12);
    WriteNumber(buffer, offset + OWNER_ID_OFFSET, 0, 6, 10);
    WroteTwice(b0, b1, buffer[..], offset, text, Field(Digits(0, 10), 6));
    b1, text := buffer[..], text + Field(Digits(0, 10), 6);
    WriteNumber(buffer, offset + GROUP_ID_OFFSET, 0, 6, 10);
    WroteTwice(b0, b1, buffer[..], offset, text, Field(Digits(0, 10), 6));
    b1, text := buffer[..], text + Field(Digits(0, 10), 6);
    WriteNumber(buffer, offset + MODE_OFFSET, MODE, 8, 8);
    WroteTwice(b0, b1, buffer[..], offset, text, Field(Digits(MODE, 8), 8));
    b1, text := buffer[..], text + Field(Digits(MODE, 8), 8);
    WriteNumber(buffer, offset + BYTE_SIZE_OFFSET, size, 10, 10);
    WroteTwice(b0, b1, buffer[..], offset, text, Field(Digits(size, 10), 10));
    b1, text := buffer[..], text + Field(Digits(size, 10), 10);
    WriteString(buffer, offset + ENDING_CHARS_OFFSET, ENDING_CHARS, 2);
    WholeField(ENDING_CHARS);
    WroteTwice(b0, b1, buffer[..], offset, text, ENDING_CHARS);
  }

  lemma WholeField(text: seq<byte>)
    ensures Field(text, |text|) == text
  {
  }

  class MemoryBuilder {
    var buffer: array<byte>
    var size: nat
    var lost: bool  // the buffer is null, after a failed reallocation
    ghost var files: seq<File>

    ghost predicate Valid()
      reads this, buffer
    {
      !lost && size == buffer.Length && buffer[..] == AR_HEADER + Entries(files)
    }

    constructor ()
      ensures Valid() && fresh(buffer) && files == []
    {
      buffer := new byte[8](i requires 0 <= i < 8 => AR_HEADER[i]);
      size, lost := 8, false;
      files := [];
      new;
      assert buffer[..] == AR_HEADER + [];
    }

    /** If there is no memory, the archive is lost.  The size of the archive is an int. */
    method Add(file: File, allocates: bool) returns (status: Status)
      requires Valid() && Storable(file) && size + |Entry(file)| <= INT_MAX
      modifies this
      ensures status == if allocates then Ok else OutOfMemory
      ensures status == Ok ==> Valid() && fresh(buffer) && files == old(files) + [file]
      ensures status != Ok ==> lost && files == old(files)
    {
      hide Entry, Header;
      if !allocates {
        lost := true;
        return OutOfMemory;
      }
      var newSize := size + FILE_HEADER_SIZE + |file.content| + |file.content| % 2;
      var larger := Reallocated(buffer, newSize);
      ghost var before := larger[..];
      WriteEntry(larger, size, file);
      Extended(larger[..], before, buffer[..], file);
      EntriesSnoc(files, file);
      ConcatAssociates(AR_HEADER, Entries(files), Entry(file));
      buffer, size, files := larger, newSize, files + [file];
      status := Ok;
    }
  }

  method Reallocated(buffer: array<byte>, size: nat) returns (larger: array<byte>)
    requires buffer.Length <= size
    ensures fresh(larger) && larger.Length == size && larger[..buffer.Length] == buffer[..]
  {
    larger := new byte[size];
    for i := 0 to buffer.Length
      invariant larger[..i] == buffer[..i]
    {
      larger[i] := buffer[i];
    }
  }

  method WriteEntry(buffer: array<byte>, offset: nat, file: File)
    requires offset + |Entry(file)| == buffer.Length && Storable(file)
    modifies buffer
    ensures Wrote(buffer[..], old(buffer[..]), offset, Entry(file))
  {
    hide Header;
    ghost var before := buffer[..];
    WriteHeader(buffer, offset, file.name, |file.content|, file);
    var at := offset + FILE_HEADER_SIZE;
    ghost var middle := buffer[..];
    for i := 0 to |file.content|
      invariant Wrote(buffer[..], middle, at, file.content[..i])
    {
      buffer[at + i] := file.content[i];
    }
    assert file.content[..|file.content|] == file.content;
    WroteTwice(before, middle, buffer[..], offset, Header(file), file.content);
    middle := buffer[..];
    at := at + |file.content|;
    if |file.content| % 2 != 0 {
      buffer[at] := PADDING_CHAR;
    }
    WroteTwice(before, middle, buffer[..], offset, Header(file) + file.content, Padding(|file.content|));
  }

  lemma Extended(now: seq<byte>, before: seq<byte>, archive: seq<byte>, file: File)
    requires |now| == |archive| + |Entry(file)| && Wrote(now, before, |archive|, Entry(file))
    requires before[..|archive|] == archive
    ensures now == archive + Entry(file)
  {
    hide Entry;
    assert forall i :: 0 <= i < |archive| ==> before[..|archive|][i] == before[i];
  }

  // ----- Names ------------------------------------------------------------------------------

  /** Without the spaces at the end, and without one slash before them. */
  function Trimmed(text: seq<byte>): seq<byte>
  {
    if text == [] then []
    else
      var last := |text| - 1;
      if text[last] == SPACE then Trimmed(text[..last]) else if text[last] == SLASH then text[..last] else text
  }

  /** What a string means to those who stop at the first zero. */
  function UpToZero(text: seq<byte>): seq<byte>
  {
    if text == [] || text[0] == 0 then [] else [text[0]] + UpToZero(text[1..])
  }

  function Shortened(name: seq<byte>): seq<byte>
  {
    if |name| > NAME_SIZE then name[..NAME_SIZE] else name
  }

  /** The name that a file in an archive has. */
  function StoredName(name: seq<byte>): seq<byte>
  {
    Trimmed(Shortened(name))
  }

  lemma {:induction false} SpacesTrimmed(name: seq<byte>, k: nat)
    requires |name| <= k
    ensures Trimmed(Field(name, k)) == Trimmed(name)
  {
    if k == |name| {
      WholeField(name);
    } else {
      SpacesTrimmed(name, k - 1);
      assert Field(name, k)[..k - 1] == Field(name, k - 1);
    }
  }

  lemma {:induction false} NoZeros(text: seq<byte>)
    requires forall i :: 0 <= i < |text| ==> text[i] != 0
    ensures UpToZero(text) == text
  {
    if text == [] {
    } else {
      NoZeros(text[1..]);
    }
  }

  lemma {:induction false} TrimmedPrefix(text: seq<byte>)
    ensures |Trimmed(text)| <= |text| && Trimmed(text) == text[..|Trimmed(text)|]
  {
    if text == [] {
    } else {
      TrimmedPrefix(text[..|text| - 1]);
    }
  }

  lemma NameRead(name: seq<byte>)
    requires forall i :: 0 <= i < |name| ==> name[i] != 0
    ensures UpToZero(Trimmed(Field(name, NAME_SIZE))) == StoredName(name)
  {
    var short := Shortened(name);
    assert Field(name, NAME_SIZE) == Field(short, NAME_SIZE);
    SpacesTrimmed(short, NAME_SIZE);
    TrimmedPrefix(short);
    NoZeros(Trimmed(short));
  }

  /** The names that survive: short ones that do not end in a space or a slash. */
  lemma NameKeptIff(name: seq<byte>)
    ensures StoredName(name) == name <==>
      |name| <= NAME_SIZE && (name == [] || (name[|name| - 1] != SPACE && name[|name| - 1] != SLASH))
  {
    TrimmedPrefix(Shortened(name));
    if |name| <= NAME_SIZE && name != [] && name[|name| - 1] == SPACE {
      TrimmedPrefix(name[..|name| - 1]);
    }
  }

  // ----- Reading ----------------------------------------------------------------------------

  datatype Status = Ok | EndOfArchive | FormatError | NotFound | OutOfMemory

  function Stored(file: File): File
  {
    File(StoredName(file.name), file.content)
  }

  lemma {:induction false} DigitsFit(n: nat, k: nat)
    requires k > 0 && n < Power(10, k)
    ensures |Digits(n, 10)| <= k
  {
    if n < 10 {
    } else {
      DigitsEnd(n, 10, k);
      DigitsFit(n / 10, k - 1);
    }
  }

  predicate IsDigit(c: byte)
  {
    ZERO <= c < ZERO + 10
  }

  /** How many digits there are at the start. */
  function Leading(field: seq<byte>): (k: nat)
    ensures k <= |field| && (forall i :: 0 <= i < k ==> IsDigit(field[i])) && (k < |field| ==> !IsDigit(field[k]))
  {
    if field == [] || !IsDigit(field[0]) then 0 else 1 + Leading(field[1..])
  }

  lemma {:induction false} LeadingIs(field: seq<byte>, k: nat)
    requires k <= |field| && (forall i :: 0 <= i < k ==> IsDigit(field[i])) && (k < |field| ==> !IsDigit(field[k]))
    ensures Leading(field) == k
  {
    if k == 0 {
    } else {
      LeadingIs(field[1..], k - 1);
    }
  }

  /** The number in a field, if it ends at a space or fills the field. */
  function FieldSize(field: seq<byte>): Option<nat>
  {
    var k := Leading(field);
    if k == |field| || field[k] == SPACE then Some(Value(field[..k])) else None
  }

  lemma SizeInField(n: nat)
    requires n <= INT_MAX
    ensures FieldSize(Field(Digits(n, 10), BYTE_SIZE_SIZE)) == Some(n)
  {
    hide Digits, Power, Leading;
    NumbersFit(n);
    DigitsFit(n, 10);
    ValueOfDigits(n);
    var digits, field := Digits(n, 10), Field(Digits(n, 10), BYTE_SIZE_SIZE);
    assert forall i :: 0 <= i < |digits| ==> field[i] == digits[i];
    assert forall i :: 0 <= i < |digits| ==> IsDigit(field[i]);
    LeadingIs(field, |digits|);
    assert field[..|digits|] == digits;
  }

  method ParseSize(field: seq<byte>) returns (r: Option<nat>)
    ensures r == FieldSize(field)
  {
    hide Leading;
    var size: nat := 0;
    for i := 0 to |field|
      invariant forall k :: 0 <= k < i ==> IsDigit(field[k])
      invariant 0 <= size == Value(field[..i])
    {
      var c := field[i];
      if ZERO <= c < ZERO + 10 {
        assert field[..i + 1][..i] == field[..i];
        size := size * 10 + (c as nat - ZERO as nat);
      } else if c == SPACE {
        LeadingIs(field, i);
        return Some(size);
      } else {
        LeadingIs(field, i);
        return None;
      }
    }
    LeadingIs(field, |field|);
    r := Some(size);
  }

  method ParseName(field: seq<byte>) returns (name: seq<byte>)
    requires |field| == NAME_SIZE
    ensures name == UpToZero(Trimmed(field))
  {
    var end := NAME_SIZE;
    assert field[..end] == field;
    while end > 0
      invariant 0 <= end <= NAME_SIZE && Trimmed(field[..end]) == Trimmed(field)
    {
      assert field[..end][..end - 1] == field[..end - 1];
      if field[end - 1] == SPACE {
        end := end - 1;
      } else if field[end - 1] == SLASH {
        end := end - 1;
        break;
      } else {
        break;
      }
    }
    name := UpToZero(field[..end]);
  }

  /** The parts of an entry that the reader looks at. */
  lemma EntryParts(bytes: seq<byte>, offset: nat, file: File, rest: seq<byte>)
    requires offset <= |bytes| && bytes[offset..] == Entry(file) + rest
    ensures var h, n := offset + FILE_HEADER_SIZE, |file.content|;
      && |bytes| >= h + n + n % 2
      && bytes[offset..offset + NAME_SIZE] == Field(file.name, NAME_SIZE)
      && bytes[offset + BYTE_SIZE_OFFSET..offset + ENDING_CHARS_OFFSET] == Field(Digits(n, 10), BYTE_SIZE_SIZE)
      && bytes[offset + ENDING_CHARS_OFFSET..h] == ENDING_CHARS
      && bytes[h..h + n] == file.content && bytes[h + n + n % 2..] == rest
  {
    hide Entry, Header;
    var n := |file.content|;
    HeaderParts(file);
    EntrySlices(file, rest);
    Slice(bytes, offset, 0, FILE_HEADER_SIZE);
    Slice(bytes, offset, FILE_HEADER_SIZE, FILE_HEADER_SIZE + n);
    Slice(bytes, offset, FILE_HEADER_SIZE + n + n % 2, |bytes| - offset);
    Slice(bytes[..offset + FILE_HEADER_SIZE], offset, 0, NAME_SIZE);
    Slice(bytes[..offset + FILE_HEADER_SIZE], offset, BYTE_SIZE_OFFSET, ENDING_CHARS_OFFSET);
    Slice(bytes[..offset + FILE_HEADER_SIZE], offset, ENDING_CHARS_OFFSET, FILE_HEADER_SIZE);
  }

  lemma Slice(s: seq<byte>, offset: nat, i: nat, j: nat)
    requires i <= j && offset + j <= |s|
    ensures s[offset..][i..j] == s[offset + i..offset + j]
  {
  }

  lemma HeaderParts(file: File)
    ensures var header := Header(file);
      && header[..NAME_SIZE] == Field(file.name, NAME_SIZE)
      && header[BYTE_SIZE_OFFSET..ENDING_CHARS_OFFSET] == Field(Digits(|file.content|, 10), BYTE_SIZE_SIZE)
      && header[ENDING_CHARS_OFFSET..FILE_HEADER_SIZE] == ENDING_CHARS
  {
    hide Field, Digits;
  }

  lemma EntrySlices(file: File, rest: seq<byte>)
    ensures var all, h, n := Entry(file) + rest, FILE_HEADER_SIZE, |file.content|;
      && |all| >= h + n && all[..h] == Header(file)
      && all[h..h + n] == file.content && all[h + n + n % 2..] == rest
  {
    hide Header;
  }

  class MemoryReader {
    const bytes: seq<byte>
    var offset: nat

    constructor (bytes: seq<byte>)
      ensures this.bytes == bytes && offset == 0
    {
      this.bytes, offset := bytes, 0;
    }

    /** What is still to be read are these files. */
    ghost predicate Ahead(files: seq<File>)
      reads `offset
    {
      && (forall i :: 0 <= i < |files| ==> Storable(files[i]))
      && if offset == 0 then bytes == AR_HEADER + Entries(files)
         else offset <= |bytes| && bytes[offset..] == Entries(files)
    }

    /** Where the next entry starts. */
    function Position(at: nat): nat
    {
      if at == 0 then |AR_HEADER| else at
    }

    /** Whatever is in front of it, here starts an entry of this file. */
    ghost predicate EntryAt(at: nat, file: File)
    {
      var h, n := at + FILE_HEADER_SIZE, |file.content|;
      && h + n <= |bytes| && bytes[at + ENDING_CHARS_OFFSET..h] == ENDING_CHARS
      && FieldSize(bytes[at + BYTE_SIZE_OFFSET..at + ENDING_CHARS_OFFSET]) == Some(n)
      && file.name == UpToZero(Trimmed(bytes[at..at + NAME_SIZE])) && file.content == bytes[h..h + n]
    }

    lemma WrittenEntry(at: nat, file: File, rest: seq<byte>)
      requires at <= |bytes| && bytes[at..] == Entry(file) + rest && Storable(file)
      ensures EntryAt(at, Stored(file))
      ensures var end := at + FILE_HEADER_SIZE + |file.content| + |file.content| % 2; end <= |bytes| && bytes[end..] == rest
    {
      hide Entry, Header, Field, Digits, Trimmed, UpToZero, StoredName, FieldSize;
      EntryParts(bytes, at, file, rest);
      NameRead(file.name);
      SizeInField(|file.content|);
    }

    /** Whatever the bytes are: the next entry is read exactly if there is one. */
    method Next(ghost files: Option<seq<File>>) returns (status: Status, file: File)
      requires files.Some? ==> Ahead(files.value)
      modifies `offset
      ensures var at, started := Position(old(offset)), old(offset) > 0 || AR_HEADER <= bytes;
        match status
        case Ok =>
          started && EntryAt(at, file) && offset == at + FILE_HEADER_SIZE + |file.content| + |file.content| % 2
        case EndOfArchive => started && at == |bytes|
        case FormatError => !started || (at != |bytes| && forall f :: !EntryAt(at, f))
        case _ => false
      ensures status == Ok ==> old(offset) < offset <= |bytes| + 1
      ensures files == Some([]) ==> status == EndOfArchive && Ahead([])
      ensures files.Some? && files.value != [] ==>
        status == Ok && file == Stored(files.value[0]) && Ahead(files.value[1..])
    {
      hide EntryAt, Entry, Stored;
      file := File([], []);
      if files.Some? && files.value != [] {
        FirstAhead(files.value);
      }
      if offset == 0 {
        if |AR_HEADER| > |bytes| || bytes[..|AR_HEADER|] != AR_HEADER {
          return FormatError, file;
        }
        offset := |AR_HEADER|;
        assert files.Some? ==> bytes[offset..] == Entries(files.value);
      }
      if offset == |bytes| {
        return EndOfArchive, file;
      }
      if offset + FILE_HEADER_SIZE > |bytes| {
        NoRoom(offset);
        return FormatError, file;
      }
      ghost var at := offset;
      status, file := ReadEntry();
      if files.Some? && files.value != [] {
        SameEntry(at, file, Stored(files.value[0]));
      }
    }

    lemma FirstAhead(files: seq<File>)
      requires Ahead(files) && files != []
      ensures var at := Position(offset);
        var end := at + FILE_HEADER_SIZE + |files[0].content| + |files[0].content| % 2;
        && at < |bytes| && EntryAt(at, Stored(files[0])) && end <= |bytes| && bytes[end..] == Entries(files[1..])
        && |Stored(files[0]).content| == |files[0].content|
    {
      hide EntryAt, Entry, StoredName;
      var at := Position(offset);
      assert bytes[at..] == Entry(files[0]) + Entries(files[1..]);
      WrittenEntry(at, files[0], Entries(files[1..]));
    }

    lemma NoRoom(at: nat)
      requires at + FILE_HEADER_SIZE > |bytes|
      ensures forall f :: !EntryAt(at, f)
    {
    }

    lemma SameEntry(at: nat, a: File, b: File)
      ensures EntryAt(at, a) && EntryAt(at, b) ==> a == b
    {
      hide FieldSize, Trimmed, UpToZero;
    }

    method ReadEntry() returns (status: Status, file: File)
      requires 0 < offset && offset + FILE_HEADER_SIZE <= |bytes|
      modifies `offset
      ensures status == Ok || status == FormatError
      ensures status == Ok ==>
        EntryAt(old(offset), file) && offset == old(offset) + FILE_HEADER_SIZE + |file.content| + |file.content| % 2
      ensures status == FormatError ==> forall f :: !EntryAt(old(offset), f)
      ensures status == Ok ==> offset <= |bytes| + 1
    {
      hide Trimmed, UpToZero, FieldSize;
      file := File([], []);
      if bytes[offset + ENDING_CHARS_OFFSET..offset + FILE_HEADER_SIZE] != ENDING_CHARS {
        return FormatError, file;
      }
      var size := ParseSize(bytes[offset + BYTE_SIZE_OFFSET..offset + ENDING_CHARS_OFFSET]);
      if size.None? {
        return FormatError, file;
      }
      var name := ParseName(bytes[offset..offset + NAME_SIZE]);
      offset := offset + FILE_HEADER_SIZE;
      if offset + size.value > |bytes| {
        return FormatError, file;
      }
      file := File(name, bytes[offset..offset + size.value]);
      offset := offset + size.value + size.value % 2;
      status := Ok;
    }

    /** The first file of that name, from where the reader is or, after a reset, of all. */
    method Find(name: seq<byte>, reset: bool, ghost files: Option<seq<File>>) returns (status: Status, file: File)
      requires files.Some? && !reset ==> Ahead(files.value)
      requires files.Some? && reset ==>
        bytes == AR_HEADER + Entries(files.value) && forall i :: 0 <= i < |files.value| ==> Storable(files.value[i])
      modifies `offset
      ensures files.Some? ==>
        var i := FirstNamed(files.value, name);
        if i < |files.value| then
          status == Ok && file == File(name, files.value[i].content) && Ahead(files.value[i + 1..])
        else status == NotFound
    {
      hide Entry, Storable, StoredName, EntryAt, Position;
      if reset {
        offset := 0;
      }
      ghost var rest := files;
      while true
        invariant files.None? ==> rest.None?
        invariant files.Some? ==>
          && rest.Some? && Ahead(rest.value) && |rest.value| <= |files.value|
          && rest.value == files.value[|files.value| - |rest.value|..]
          && FirstNamed(files.value, name) == |files.value| - |rest.value| + FirstNamed(rest.value, name)
        decreases |bytes| + 1 - offset
      {
        status, file := Next(rest);
        if status != Ok {
          return if status == EndOfArchive then NotFound else status, File([], []);
        }
        if file.name == name {
          return;
        }
        if files.Some? {
          rest := Some(rest.value[1..]);
        }
      }
    }
  }

  /** Where the first file of that name is; behind all files if there is none. */
  ghost function FirstNamed(files: seq<File>, name: seq<byte>): (i: nat)
    ensures i <= |files| && (i < |files| ==> StoredName(files[i].name) == name)
    ensures forall j :: 0 <= j < i ==> StoredName(files[j].name) != name
  {
    if files == [] || StoredName(files[0].name) == name then 0 else 1 + FirstNamed(files[1..], name)
  }

  /** What is put into an archive comes out again, in order and with the names shortened. */
  method RoundTrip(files: seq<File>) returns (read: seq<File>)
    requires forall i :: 0 <= i < |files| ==> Storable(files[i])
    requires |AR_HEADER| + |Entries(files)| <= INT_MAX
    ensures |read| == |files| && forall i :: 0 <= i < |files| ==> read[i] == Stored(files[i])
  {
    hide Entry, Entries, Stored, Storable, MemoryReader.EntryAt, MemoryReader.Position;
    var builder := new MemoryBuilder();
    for i := 0 to |files|
      invariant builder.Valid() && fresh(builder) && fresh(builder.buffer) && builder.files == files[..i]
    {
      EntriesGrow(files, i);
      var _ := builder.Add(files[i], true);
    }
    assert files[..|files|] == files;
    var reader := new MemoryReader(builder.buffer[..]);
    read := [];
    var status, file := reader.Next(Some(files));
    while status == Ok
      invariant |read| <= |files| && forall i :: 0 <= i < |read| ==> read[i] == Stored(files[i])
      invariant if |read| < |files| then
          status == Ok && file == Stored(files[|read|]) && reader.Ahead(files[|read| + 1..])
        else status == EndOfArchive
      decreases |files| - |read|
    {
      read := read + [file];
      assert |read| < |files| ==> files[|read|..] != [] && files[|read|..][1..] == files[|read| + 1..];
      status, file := reader.Next(Some(files[|read|..]));
    }
  }
}

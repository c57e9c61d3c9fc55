/**
 The persisted form of a habit's weekly record: one character per day,
 '1' for a marked day and '0' for an unmarked one, concatenated in day order.
 Reading the text back marks a day exactly when its character is '1'.
 */
module DayCodec {

  /** The character a single day is written as. */
  function DayChar(marked: bool): char {
    if marked then '1' else '0'
  }

  /** True of a text that only holds the two day characters. */
  predicate IsDayText(s: string) {
    forall k :: 0 <= k < |s| ==> s[k] == '0' || s[k] == '1'
  }

  /** The days a text denotes: one per character, marked exactly where the character is '1'. */
  predicate Denotes(s: string, days: seq<bool>) {
    |days| == |s| && forall k :: 0 <= k < |s| ==> (days[k] <==> s[k] == '1')
  }

  /** Writes every day as its one-character string and joins them in order. */
  function Encode(days: seq<bool>): (s: string)
    ensures |s| == |days|
    ensures IsDayText(s)
    ensures Denotes(s, days)
  {
    if |days| == 0 then "" else [DayChar(days[0])] + Encode(days[1..])
  }

  /** Reads each character of the stored text as a day, marked iff it is '1'. */
  function Decode(s: string): (days: seq<bool>)
    ensures Denotes(s, days)
  {
    if |s| == 0 then [] else [s[0] == '1'] + Decode(s[1..])
  }

  /**
   Reading back what was written yields the same days; a corollary of the
   contracts of Encode and Decode, which fix every character and every day.
   */
  lemma DecodeEncode(days: seq<bool>)
    ensures Decode(Encode(days)) == days
  {
  }

  /** A text of day characters is exactly what writing its reading produces. */
  lemma EncodeDecode(s: string)
    requires IsDayText(s)
    ensures Encode(Decode(s)) == s
  {
  }

  /** Writing is injective: two different weekly records never share a text. */
  lemma EncodeInjective(a: seq<bool>, b: seq<bool>)
    requires Encode(a) == Encode(b)
    ensures a == b
  {
    DecodeEncode(a);
    DecodeEncode(b);
  }
}

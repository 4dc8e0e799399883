/** What the agents read from a section of the structured book: a dict
    whose `content` is looked up with `''` as the default. */
module Sections {
  import opened PyJson

  /** `section.get('content', '')`. */
  function ContentOf(section: map<string, Json>): Json {
    if "content" in section then section["content"] else JStr("")
  }

  /** A section the text passes can work on: a dict whose content is a
      string. */
  predicate Textual(item: Json) {
    item.JObj? && ContentOf(item.fields).JStr?
  }

  predicate AllTextual(items: seq<Json>) {
    forall i :: 0 <= i < |items| ==> Textual(items[i])
  }

  /** The first section a text pass cannot work on. */
  function FirstNonTextual(items: seq<Json>): (k: nat)
    requires !AllTextual(items)
    ensures k < |items| && !Textual(items[k])
    ensures AllTextual(items[..k])
  {
    if !Textual(items[0]) then
      assert items[..0] == [];
      0
    else
      var k := FirstNonTextual(items[1..]);
      assert items[..k + 1] == [items[0]] + items[1..][..k];
      k + 1
  }
}

/**
 * The unit tests of array_test.c and the copy/split steps of its driver, as
 * methods whose contracts state the expected outcomes, plus the input that
 * exposes the boundary of array_element as written.
 */
module ArrayScenarios {
  import opened Wrappers
  import opened DynArrays
  import opened Tokenizer
  import opened StringArrays

  /** new_empty_array: array_new(0) is empty. */
  method NewEmptyArray() returns (empty: bool)
    ensures empty
  {
    var items := new DynArray<string>.New(0);
    empty := items.IsEmpty();
  }

  /** adding_one_element: one add to a new array gives count 1, not empty. */
  method AddingOneElement() returns (count: nat, empty: bool)
    ensures count == 1 && !empty
  {
    var items := new DynArray<string>.New(0);
    items.Add(Some("One"));
    count := items.Count();
    empty := items.IsEmpty();
  }

  /** copy_of_one_element: the copy is another array holding the one element. */
  method CopyOfOneElement() returns (distinct: bool, count: nat)
    ensures distinct && count == 1
  {
    var original := new DynArray<string>.New(0);
    original.Add(Some("One"));
    var copy := new DynArray.Copy(original);
    distinct := original != copy;
    count := copy.Count();
  }

  /** An add to a copy leaves the original as it was: the copy owns its buffer. */
  method AddToCopy() returns (originalCount: nat, copyCount: nat, first: Option<string>)
    ensures originalCount == 1 && copyCount == 2 && first == Some("One")
  {
    var original := new DynArray<string>.New(0);
    original.Add(Some("One"));
    var copy := new DynArray.Copy(original);
    copy.Add(Some("Two"));
    originalCount := original.Count();
    copyCount := copy.Count();
    first := original.Element(0);
  }

  /** The slots array_from_split_string fills for "Hello,World" split on ",". */
  lemma HelloWorldSlots()
    ensures AsSlots(Tokens("Hello,World", DelimiterSet(","))) == [Some("Hello"), Some("World")]
  {
    assert DelimiterSet(",") == {','};
    HelloWorldSplit();
  }

  /** "Hello,World" split on "," holds "Hello" and then "World", with room to spare. */
  method SplitHelloWorld() returns (parts: seq<Option<string>>, full: bool)
    ensures parts == [Some("Hello"), Some("World")] && !full
  {
    var items := FromSplitString(Some("Hello,World"), ",");
    HelloWorldSlots();
    parts := items.data[..items.count];
    full := items.IsFull();
  }

  /**
   * array_new(0) has capacity 1, so after one add the array is full and
   * array_element as written reads index 1 from beyond the buffer.
   */
  method ElementAtCountOfFullArray() returns (r: Access<string>, intended: Option<string>)
    ensures r == PastBuffer && intended == None
  {
    var items := new DynArray<string>.New(0);
    items.Add(Some("One"));
    r := items.ElementAsWritten(1);
    intended := items.Element(1);
  }

  /**
   * The driver's last append: the strings of a fresh split of "Buckle,Shoe"
   * are duplicated onto another split array; a second append of the same
   * pair is as valid as the first and leaves the split untouched.
   */
  method AppendSplitTwice() returns (joined: seq<Option<string>>, added: seq<Option<string>>)
    ensures added == AsSlots(Tokens("Buckle,Shoe", DelimiterSet(",")))
    ensures joined == [Some("Hello"), Some("World")] + added + added
  {
    var items := FromSplitString(Some("Hello,World"), ",");
    var newElements := FromSplitString(Some("Buckle,Shoe"), ",");
    HelloWorldSlots();
    AppendDuplicatingStrings(items, newElements);
    AppendDuplicatingStrings(items, newElements);
    joined := items.data[..items.count];
    added := newElements.data[..newElements.count];
  }
}

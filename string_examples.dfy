/** The expected values of the string tests in run_examples.py, lines 79 and 80. */
module StringExamples {
  import opened Strings

  lemma ListenSilent()
    ensures IsAnagram("listen", "silent")
  {
    ListenSilentPlain();
    ListenSilentLetters();
    PlainAnagrams("listen", "silent");
  }

  lemma ListenSilentPlain()
    ensures Plain("listen") && Plain("silent")
  {
  }

  lemma ListenSilentLetters()
    ensures multiset("listen") == multiset("silent")
  {
  }

  lemma HelloWorld()
    ensures ReverseWords("Hello World") == "World Hello"
  {
    HelloWorldWords();
    ReverseTwoWords("Hello", "World");
  }

  lemma HelloWorldWords()
    ensures "Hello World" == "Hello" + " " + "World" && IsWord("Hello") && IsWord("World")
    ensures "World" + " " + "Hello" == "World Hello"
  {
  }
}

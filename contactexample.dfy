/** The worked example of the contact composer: the name "Ada", the subject
    "Hello" and the message "Hi there" give the URI
    `mailto:michaelcebralclase@gmail.com?subject=%5BSite%5D%20Hello&body=From%3A%20Ada%0A%0AHi%20there`.
    The example is reached through lemmas over arbitrary words, so that the
    encoder is never unfolded on the literal text itself. */
module ContactExample {
  import opened UriEncoding
  import opened Contact

  /** The escapes the example needs. */
  lemma ExampleEscapes()
    ensures EncodeChar('[') == "%5B" && EncodeChar(']') == "%5D" && EncodeChar(':') == "%3A"
    ensures EncodeChar(' ') == "%20" && EncodeChar('\n') == "%0A"
  {
    EncodeAsciiChar('[');
    EncodeAsciiChar(']');
    EncodeAsciiChar(':');
  }

  /** A word of unreserved characters has nothing to trim. */
  lemma TrimWord(s: string)
    requires AllUnreserved(s)
    ensures Trim(s) == s
  {
    if s != [] {
      assert !IsTrimmable(s[0]) && !IsTrimmable(s[|s| - 1]);
    }
  }

  /** Two words joined by a space have nothing to trim. */
  lemma TrimPhrase(w1: string, w2: string)
    requires AllUnreserved(w1) && AllUnreserved(w2) && w1 != [] && w2 != []
    ensures Trim(w1 + [' '] + w2) == w1 + [' '] + w2
  {
    var m := w1 + [' '] + w2;
    assert m[0] == w1[0] && m[|m| - 1] == w2[|w2| - 1];
    TrimIsCore([], m, []);
    assert [] + m + [] == m;
  }

  lemma PrefixPieces()
    ensures SubjectPrefix == ['['] + "Site" + [']'] + [' ']
    ensures BodyPrefix == "From" + [':'] + [' ']
    ensures "\n\n" == ['\n'] + ['\n']
    ensures AllUnreserved("Site") && AllUnreserved("From")
  {
  }

  lemma SubjectRegrouped(c1: char, w1: string, c2: char, c3: char, w2: string)
    ensures [c1] + w1 + [c2] + [c3] + w2 == [c1] + (w1 + ([c2] + ([c3] + w2)))
  {
  }

  lemma BodyRegrouped(w1: string, c1: char, c2: char, w2: string, c3: char, c4: char, w3: string, c5: char, w4: string)
    ensures (w1 + [c1] + [c2]) + w2 + ([c3] + [c4]) + (w3 + [c5] + w4)
         == w1 + ([c1] + ([c2] + (w2 + ([c3] + ([c4] + (w3 + ([c5] + w4)))))))
  {
  }

  /** The subject header of a subject without white space, split at its
      reserved characters. */
  lemma SubjectTextPieces(subj: string)
    requires Trim(subj) == subj
    ensures SubjectText(subj) == ['['] + ("Site" + ([']'] + ([' '] + subj)))
  {
    PrefixPieces();
    SubjectRegrouped('[', "Site", ']', ' ', subj);
  }

  /** The body header of a one-word name and a two-word message, split at its
      reserved characters. */
  lemma BodyTextPieces(name: string, w1: string, w2: string)
    requires Trim(name) == name && Trim(w1 + [' '] + w2) == w1 + [' '] + w2
    ensures BodyText(name, w1 + [' '] + w2)
         == "From" + ([':'] + ([' '] + (name + (['\n'] + (['\n'] + (w1 + ([' '] + w2)))))))
  {
    PrefixPieces();
    BodyRegrouped("From", ':', ' ', name, '\n', '\n', w1, ' ', w2);
  }

  /** Encoding a character, a word, two characters and a word escapes the
      characters and copies the words. */
  lemma SubjectShapeEncoded(c1: char, w1: string, c2: char, c3: char, w2: string)
    requires AllUnreserved(w1) && AllUnreserved(w2)
    ensures Encode([c1] + (w1 + ([c2] + ([c3] + w2))))
         == EncodeChar(c1) + (w1 + (EncodeChar(c2) + (EncodeChar(c3) + w2)))
  {
    calc {
      Encode([c1] + (w1 + ([c2] + ([c3] + w2))));
    == { EncodeCharThen(c1, w1 + ([c2] + ([c3] + w2))); }
      EncodeChar(c1) + Encode(w1 + ([c2] + ([c3] + w2)));
    == { EncodeWordThen(w1, [c2] + ([c3] + w2)); }
      EncodeChar(c1) + (w1 + Encode([c2] + ([c3] + w2)));
    == { EncodeCharThen(c2, [c3] + w2); }
      EncodeChar(c1) + (w1 + (EncodeChar(c2) + Encode([c3] + w2)));
    == { EncodeCharThen(c3, w2); EncodeUnreservedIdentity(w2); }
      EncodeChar(c1) + (w1 + (EncodeChar(c2) + (EncodeChar(c3) + w2)));
    }
  }

  /** Encoding a word, two characters, a word, two characters, a word, a
      character and a word escapes the characters and copies the words. */
  lemma BodyShapeEncoded(w1: string, c1: char, c2: char, w2: string, c3: char, c4: char, w3: string, c5: char, w4: string)
    requires AllUnreserved(w1) && AllUnreserved(w2) && AllUnreserved(w3) && AllUnreserved(w4)
    ensures Encode(w1 + ([c1] + ([c2] + (w2 + ([c3] + ([c4] + (w3 + ([c5] + w4))))))))
         == w1 + (EncodeChar(c1) + (EncodeChar(c2) + (w2 + (EncodeChar(c3) + (EncodeChar(c4) + (w3 + (EncodeChar(c5) + w4)))))))
  {
    calc {
      Encode(w1 + ([c1] + ([c2] + (w2 + ([c3] + ([c4] + (w3 + ([c5] + w4))))))));
    == { EncodeWordThen(w1, [c1] + ([c2] + (w2 + ([c3] + ([c4] + (w3 + ([c5] + w4))))))); }
      w1 + Encode([c1] + ([c2] + (w2 + ([c3] + ([c4] + (w3 + ([c5] + w4)))))));
    == { EncodeCharThen(c1, [c2] + (w2 + ([c3] + ([c4] + (w3 + ([c5] + w4)))))); }
      w1 + (EncodeChar(c1) + Encode([c2] + (w2 + ([c3] + ([c4] + (w3 + ([c5] + w4)))))));
    == { EncodeCharThen(c2, w2 + ([c3] + ([c4] + (w3 + ([c5] + w4))))); }
      w1 + (EncodeChar(c1) + (EncodeChar(c2) + Encode(w2 + ([c3] + ([c4] + (w3 + ([c5] + w4)))))));
    == { EncodeWordThen(w2, [c3] + ([c4] + (w3 + ([c5] + w4)))); }
      w1 + (EncodeChar(c1) + (EncodeChar(c2) + (w2 + Encode([c3] + ([c4] + (w3 + ([c5] + w4)))))));
    == { EncodeCharThen(c3, [c4] + (w3 + ([c5] + w4))); }
      w1 + (EncodeChar(c1) + (EncodeChar(c2) + (w2 + (EncodeChar(c3) + Encode([c4] + (w3 + ([c5] + w4)))))));
    == { EncodeCharThen(c4, w3 + ([c5] + w4)); }
      w1 + (EncodeChar(c1) + (EncodeChar(c2) + (w2 + (EncodeChar(c3) + (EncodeChar(c4) + Encode(w3 + ([c5] + w4)))))));
    == { EncodeWordThen(w3, [c5] + w4); }
      w1 + (EncodeChar(c1) + (EncodeChar(c2) + (w2 + (EncodeChar(c3) + (EncodeChar(c4) + (w3 + Encode([c5] + w4)))))));
    == { EncodeCharThen(c5, w4); EncodeUnreservedIdentity(w4); }
      w1 + (EncodeChar(c1) + (EncodeChar(c2) + (w2 + (EncodeChar(c3) + (EncodeChar(c4) + (w3 + (EncodeChar(c5) + w4)))))));
    }
  }

  /** A subject made of unreserved characters is sent as `%5BSite%5D%20` and the
      subject itself. */
  lemma SubjectEncoded(subj: string)
    requires AllUnreserved(subj)
    ensures Encode(SubjectText(subj)) == "%5B" + ("Site" + ("%5D" + ("%20" + subj)))
  {
    TrimWord(subj);
    SubjectTextPieces(subj);
    PrefixPieces();
    SubjectShapeEncoded('[', "Site", ']', ' ', subj);
    ExampleEscapes();
  }

  /** A one-word name and a two-word message are sent as `From%3A%20`, the name,
      `%0A%0A` and the two words joined by `%20`. */
  lemma BodyEncoded(name: string, w1: string, w2: string)
    requires AllUnreserved(name) && AllUnreserved(w1) && AllUnreserved(w2) && w1 != [] && w2 != []
    ensures Encode(BodyText(name, w1 + [' '] + w2))
         == "From" + ("%3A" + ("%20" + (name + ("%0A" + ("%0A" + (w1 + ("%20" + w2)))))))
  {
    TrimWord(name);
    TrimPhrase(w1, w2);
    BodyTextPieces(name, w1, w2);
    PrefixPieces();
    BodyShapeEncoded("From", ':', ' ', name, '\n', '\n', w1, ' ', w2);
    ExampleEscapes();
  }

  lemma ExampleFields()
    ensures AllUnreserved("Ada") && AllUnreserved("Hello") && AllUnreserved("Hi") && AllUnreserved("there")
    ensures "Hi there" == "Hi" + [' '] + "there"
  {
  }

  lemma ComposeOf(name: string, subj: string, msg: string, es: string, eb: string)
    requires Encode(SubjectText(subj)) == es && Encode(BodyText(name, msg)) == eb
    ensures ComposeMailto(name, subj, msg) == Scheme + Email + "?subject=" + es + "&body=" + eb
  {
  }

  /** The example's header values and URI, assembled piece by piece. */
  lemma ExampleSubjectText()
    ensures "%5B" + ("Site" + ("%5D" + ("%20" + "Hello"))) == "%5BSite%5D%20Hello"
  {
    assert "%20" + "Hello" == "%20Hello";
    assert "%5D" + "%20Hello" == "%5D%20Hello";
    assert "Site" + "%5D%20Hello" == "Site%5D%20Hello";
    assert "%5B" + "Site%5D%20Hello" == "%5BSite%5D%20Hello";
  }

  lemma ExampleMessageText()
    ensures "Ada" + ("%0A" + ("%0A" + ("Hi" + ("%20" + "there")))) == "Ada%0A%0AHi%20there"
  {
    assert "%20" + "there" == "%20there";
    assert "Hi" + "%20there" == "Hi%20there";
    assert "%0A" + "Hi%20there" == "%0AHi%20there";
  }

  lemma ExampleSenderText()
    ensures "%20" + ("Ada" + ("%0A" + ("%0A" + ("Hi" + ("%20" + "there"))))) == "%20Ada%0A%0AHi%20there"
  {
    ExampleMessageText();
  }

  lemma ExampleBodyText()
    ensures "From" + ("%3A" + ("%20" + ("Ada" + ("%0A" + ("%0A" + ("Hi" + ("%20" + "there")))))))
         == "From%3A%20Ada%0A%0AHi%20there"
  {
    ExampleSenderText();
    assert "%3A" + "%20Ada%0A%0AHi%20there" == "%3A%20Ada%0A%0AHi%20there";
  }

  lemma ExampleRecipient()
    ensures Scheme + Email == "mailto:michaelcebralclase@gmail.com"
  {
  }

  lemma ExampleUriHead()
    ensures Scheme + Email + "?subject=" == "mailto:michaelcebralclase@gmail.com?subject="
  {
    ExampleRecipient();
  }

  lemma ExampleUriSubject()
    ensures "mailto:michaelcebralclase@gmail.com?subject=" + "%5BSite%5D%20Hello" + "&body="
         == "mailto:michaelcebralclase@gmail.com?subject=%5BSite%5D%20Hello&body="
  {
    assert "mailto:michaelcebralclase@gmail.com?subject=" + "%5BSite%5D%20Hello"
        == "mailto:michaelcebralclase@gmail.com?subject=%5BSite%5D%20Hello";
  }

  lemma ExampleUriBody()
    ensures "mailto:michaelcebralclase@gmail.com?subject=%5BSite%5D%20Hello&body=" + "From%3A%20Ada%0A%0AHi%20there"
         == "mailto:michaelcebralclase@gmail.com?subject=%5BSite%5D%20Hello&body=From%3A%20Ada%0A%0AHi%20there"
  {
  }

  lemma ExampleUri()
    ensures Scheme + Email + "?subject=" + "%5BSite%5D%20Hello" + "&body=" + "From%3A%20Ada%0A%0AHi%20there"
         == "mailto:michaelcebralclase@gmail.com?subject=%5BSite%5D%20Hello&body=From%3A%20Ada%0A%0AHi%20there"
  {
    ExampleUriHead();
    ExampleUriSubject();
    ExampleUriBody();
  }

  /** Submitting the name "Ada", the subject "Hello" and the message "Hi there"
      navigates to this exact URI. */
  lemma ComposeMailtoExample()
    ensures ComposeMailto("Ada", "Hello", "Hi there")
         == "mailto:michaelcebralclase@gmail.com?subject=%5BSite%5D%20Hello&body=From%3A%20Ada%0A%0AHi%20there"
  {
    ExampleFields();
    SubjectEncoded("Hello");
    BodyEncoded("Ada", "Hi", "there");
    ExampleSubjectText();
    ExampleBodyText();
    ExampleUri();
    ComposeOf("Ada", "Hello", "Hi there", "%5BSite%5D%20Hello", "From%3A%20Ada%0A%0AHi%20there");
  }
}

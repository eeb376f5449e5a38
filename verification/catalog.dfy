/** The application's static content: the quotes and the topic categories
    (only the fields the modelled pages read). */
module Catalog {

  datatype Quote = Quote(id: int, text: string, author: string)

  datatype Category = Category(id: int, slug: string, title: string)

  const Quotes: seq<Quote> := [
    Quote(1, "The sun is a daily reminder that we too can rise again from the darkness, that we too can shine our own light.", "S. Ajna"),
    Quote(2, "You are not a drop in the ocean. You are the entire ocean in a drop.", "Rumi"),
    Quote(3, "The best way out is always through.", "Robert Frost"),
    Quote(4, "It is during our darkest moments that we must focus to see the light.", "Aristotle"),
    Quote(5, "Your present circumstances don't determine where you can go; they merely determine where you start.", "Nido Qubein"),
    Quote(6, "Just when the caterpillar thought the world was over, it became a butterfly.", "Proverb"),
    Quote(7, "Happiness can be found, even in the darkest of times, if one only remembers to turn on the light.", "Albus Dumbledore"),
    Quote(8, "You have to be at your strongest when you\U{2019}re feeling at your weakest.", "Unknown"),
    Quote(9, "This is a wonderful day. I've never seen this one before.", "Maya Angelou"),
    Quote(10, "What lies behind us and what lies before us are tiny matters compared to what lies within us.", "Ralph Waldo Emerson"),
    Quote(11, "Breathe. You're going to be okay. You've gotten through all of your worst days.", "Unknown"),
    Quote(12, "The oak fought the wind and was broken, the willow bent when it must and survived.", "Robert Jordan"),
    Quote(13, "Even the darkest night will end and the sun will rise.", "Victor Hugo"),
    Quote(14, "Sometimes the most important thing in a whole day is the rest we take between two deep breaths.", "Etty Hillesum"),
    Quote(15, "What you think, you become. What you feel, you attract. What you imagine, you create.", "Buddha"),
    Quote(16, "Start where you are. Use what you have. Do what you can.", "Arthur Ashe"),
    Quote(17, "You are stronger than you know. More capable than you ever dreamed. And you are loved more than you could possibly imagine.", "Unknown"),
    Quote(18, "Feel the feeling but don't become the emotion. Witness it. Allow it. Release it.", "Crystal Andrus"),
    Quote(19, "The pain you feel today is the strength you feel tomorrow.", "Unknown"),
    Quote(20, "Every day may not be good, but there is something good in every day.", "Alice Morse Earle")
  ]

  const Categories: seq<Category> := [
    Category(1, "depression", "Depression"),
    Category(2, "anxiety", "Anxiety"),
    Category(3, "stress", "Stress"),
    Category(4, "overthinking", "Overthinking"),
    Category(5, "insomnia", "Insomnia"),
    Category(6, "grief", "Grief"),
    Category(7, "burnout", "Burnout"),
    Category(8, "self-esteem", "Self-Esteem"),
    Category(9, "loneliness", "Loneliness"),
    Category(10, "anger-management", "Anger Management")
  ]

  /** The catalog's shape: twenty quotes with distinct ids and ten
      categories with distinct slugs. */
  lemma CatalogShape()
    ensures |Quotes| == 20
    ensures forall i, j :: 0 <= i < j < |Quotes| ==> Quotes[i].id != Quotes[j].id
    ensures |Categories| == 10
    ensures forall i, j :: 0 <= i < j < |Categories| ==> Categories[i].slug != Categories[j].slug
  {
    forall i, j | 0 <= i < j < |Quotes| ensures Quotes[i].id != Quotes[j].id {
      assert forall k :: 0 <= k < |Quotes| ==> Quotes[k].id == k + 1;
    }
  }
}

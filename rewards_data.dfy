/** The static reward catalog shown on the redeem page. */
module RewardsData {
  datatype Reward = Reward(id: int, icon: string, title: string, description: string, points: int, status: string)

  const Catalog: seq<Reward> := [
    Reward(1, "\U{1F4B8}", "$5 Bank Transfer",
      "The $5 equivalent will be transferred to your bank account.", 5000, "locked"),
    Reward(2, "\U{1F4B8}", "$5 PayPal International",
      "Receive a $5 PayPal balance transfer directly to your PayPal account email.", 5000, "locked"),
    Reward(3, "\U{1F381}", "$5 Virtual Visa Card",
      "Use your $5 prepaid card to shop anywhere Visa is accepted online.", 5000, "locked"),
    Reward(4, "\U{1F381}", "$5 Apple Gift Card",
      "Redeem this $5 Apple Gift Card for apps, games, music, movies, and more on the App Store and iTunes.", 5000, "locked"),
    Reward(5, "\U{1F381}", "$5 Google Play Card",
      "Use this $5 Google Play Gift Card to purchase apps, games, movies, books, and more on the Google Play Store.", 5000, "locked"),
    Reward(6, "\U{1F381}", "$5 Amazon Gift Card",
      "Get a $5 digital gift card to spend on your favorite tools or platforms.", 5000, "locked"),
    Reward(7, "\U{1F381}", "$10 Amazon Gift Card",
      "Get a $10 digital gift card to spend on your favorite platforms.", 10000, "locked"),
    Reward(8, "\U{1F4DA}", "Free Udemy Course", "Coming Soon!", 0, "coming-soon")
  ]
}

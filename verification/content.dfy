/**
 The static catalog of config/content.ts that the search page runs over:
 two hero items, eight products and eight research posts, concatenated with
 each record tagged by its kind.
 */
module Content {

  import opened Options
  import opened Search
  import Text

  /** The two hero banners: no content, date or gradient. Record fields run
      id, title, description, content, date, background, gradient, link. */
  const HeroItems: seq<Record> := [
    Record("sora", "Sora",
      Some("Bring your imagination to life from text, image, or video."),
      None, None, Some("/placeholder.svg?height=800&width=1600"), None, Some("/sora")),
    Record("chatgpt", "ChatGPT",
      Some("Get started with our most advanced AI assistant."),
      None, None, Some("/placeholder.svg?height=800&width=1600"), None, Some("/chatgpt"))
  ]

  /** The product cards: no background. */
  const Products: seq<Record> := [
    Record("sora", "Sora is here",
      Some("Experience the future of video creation with Sora, our groundbreaking text-to-video AI model."),
      Some("Bring your imagination to life with Sora, our new text-to-video model"),
      Some("Dec 9, 2024"), None,
      Some("linear-gradient(to bottom right, #9333ea, #6b21a8)"), Some("/products/sora")),
    Record("chatgpt-pro", "Introducing ChatGPT Pro",
      Some("Upgrade your AI experience with ChatGPT Pro, offering enhanced capabilities and premium support."),
      Some("Get priority access, faster response times, and exclusive features"),
      Some("Dec 5, 2024"), None,
      Some("linear-gradient(to bottom right, #fbbf24, #d97706)"), Some("/products/chatgpt-pro")),
    Record("chatgpt-search", "Introducing ChatGPT search",
      Some("Search smarter with ChatGPT search, leveraging AI for more relevant and insightful results."),
      Some("Enhance your search experience with AI-powered results"),
      Some("Nov 15, 2024"), None,
      Some("linear-gradient(to bottom right, #22c55e, #16a34a)"), Some("/products/chatgpt-search")),
    Record("canvas", "Introducing canvas",
      Some("Experience seamless writing and coding with our innovative canvas feature, powered by ChatGPT."),
      Some("A new way to write and code with ChatGPT"),
      Some("Oct 20, 2024"), None,
      Some("linear-gradient(to bottom right, #1e3a8a, #1a202c)"), Some("/products/canvas")),
    Record("gpt-4-turbo", "GPT-4 Turbo",
      Some("Unlock unparalleled language capabilities with GPT-4 Turbo, our most advanced language model yet."),
      Some("Experience the next level of language understanding and generation"),
      Some("Sep 5, 2024"), None,
      Some("linear-gradient(to bottom right, #a78bfa, #8167d7)"), Some("/products/gpt-4-turbo")),
    Record("dalle-3", "DALL\U{00B7}E 3",
      Some("Unleash your creativity with DALL\U{00B7}E 3, generating breathtaking images from your text prompts."),
      Some("Create stunning images with our most advanced image generation model"),
      Some("Aug 1, 2024"), None,
      Some("linear-gradient(to bottom right, #f97316, #e36414)"), Some("/products/dalle-3")),
    Record("api", "API",
      Some("Seamlessly integrate OpenAI's powerful models into your applications with our robust and versatile API."),
      Some("Integrate OpenAI's powerful models into your applications"),
      Some("Jul 10, 2024"), None,
      Some("linear-gradient(to bottom right, #0ea5e9, #0284c7)"), Some("/products/api")),
    Record("enterprise", "Enterprise",
      Some("Empower your business with tailored AI solutions designed to meet your specific needs and drive growth."),
      Some("Tailored AI solutions for your business needs"),
      Some("Jun 1, 2024"), None,
      Some("linear-gradient(to bottom right, #4ade80, #22c55e)"), Some("/products/enterprise"))
  ]

  /** The research cards: no background. */
  const ResearchItems: seq<Record> := [
    Record("safety-alignment-1", "Safety & Alignment",
      Some("Explore our cutting-edge research on ensuring AI systems are safe and aligned with human values."),
      Some("Our latest research on AI safety and alignment"),
      Some("Dec 5, 2024"), None,
      Some("linear-gradient(to bottom right, #f87171, #dc2626)"), Some("/research/safety-alignment-dec-5")),
    Record("video-models", "Video generation models as world simulators",
      Some("Dive into our research on how video generation models can simulate complex physical environments."),
      Some("Understanding how video models simulate physical worlds"),
      Some("Feb 15, 2024"), None,
      Some("linear-gradient(to bottom right, #60a5fa, #3b82f6)"), Some("/research/video-models")),
    Record("safety-alignment-2", "Safety & Alignment",
      Some("Learn about our progress in aligning AI systems with human values and ethical considerations."),
      Some("Advancements in ensuring AI systems align with human values"),
      Some("Nov 30, 2024"), None,
      Some("linear-gradient(to bottom right, #f87171, #dc2626)"), Some("/research/safety-alignment-nov-30")),
    Record("research-1", "Research",
      Some("Discover our latest breakthroughs and explorations in the field of artificial intelligence."),
      Some("Exploring the frontiers of artificial intelligence"),
      Some("Dec 5, 2024"), None,
      Some("linear-gradient(to bottom right, #a78bfa, #8167d7)"), Some("/research/research-dec-5")),
    Record("research-2", "Research",
      Some("Explore our advancements in natural language processing and understanding."),
      Some("Breakthroughs in natural language processing and understanding"),
      Some("Sep 12, 2024"), None,
      Some("linear-gradient(to bottom right, #a78bfa, #8167d7)"), Some("/research/research-sep-12")),
    Record("safety-alignment-3", "Safety & Alignment",
      Some("Learn about our methods for developing robust and reliable AI systems."),
      Some("Developing robust and reliable AI systems"),
      Some("Aug 28, 2024"), None,
      Some("linear-gradient(to bottom right, #f87171, #dc2626)"), Some("/research/safety-alignment-aug-28")),
    Record("research-3", "Research",
      Some("Discover our progress in multimodal learning and generation."),
      Some("Advancements in multimodal learning and generation"),
      Some("Aug 15, 2024"), None,
      Some("linear-gradient(to bottom right, #a78bfa, #8167d7)"), Some("/research/research-aug-15")),
    Record("safety-alignment-4", "Safety & Alignment",
      Some("Explore the ethical considerations in AI development and deployment."),
      Some("Ethical considerations in AI development and deployment"),
      Some("Jul 30, 2024"), None,
      Some("linear-gradient(to bottom right, #f87171, #dc2626)"), Some("/research/safety-alignment-jul-30"))
  ]

  /** `records.map(item => ({ ...item, type: kind }))`. */
  function Tag(kind: Kind, records: seq<Record>): seq<Item> {
    seq(|records|, i requires 0 <= i < |records| => Item(kind, records[i]))
  }

  /** `allContent`: the three groups, tagged and concatenated in order. */
  function AllContent(): seq<Item> {
    CatalogOf(HeroItems, Products, ResearchItems)
  }

  function CatalogOf(heroes: seq<Record>, products: seq<Record>, research: seq<Record>): seq<Item> {
    Tag(Hero, heroes) + Tag(Product, products) + Tag(Research, research)
  }

  predicate DistinctIds(records: seq<Record>) {
    forall i, j :: 0 <= i < j < |records| ==> records[i].id != records[j].id
  }

  // ------------------------------------------------ any three record groups

  /** Indexing into three concatenated groups. */
  lemma GroupsLayout(h: seq<Item>, p: seq<Item>, r: seq<Item>)
    ensures |h + p + r| == |h| + |p| + |r|
    ensures forall i :: 0 <= i < |h| ==> (h + p + r)[i] == h[i]
    ensures forall i :: |h| <= i < |h| + |p| ==> (h + p + r)[i] == p[i - |h|]
    ensures forall i :: |h| + |p| <= i < |h| + |p| + |r| ==> (h + p + r)[i] == r[i - |h| - |p|]
  {
  }

  /** The tagged concatenation holds each group's records in order, each
      tagged with its group's kind. */
  lemma CatalogOfLayout(hs: seq<Record>, ps: seq<Record>, rs: seq<Record>)
    ensures |CatalogOf(hs, ps, rs)| == |hs| + |ps| + |rs|
    ensures forall i :: 0 <= i < |hs| ==> CatalogOf(hs, ps, rs)[i] == Item(Hero, hs[i])
    ensures forall i :: |hs| <= i < |hs| + |ps| ==> CatalogOf(hs, ps, rs)[i] == Item(Product, ps[i - |hs|])
    ensures forall i :: |hs| + |ps| <= i < |hs| + |ps| + |rs| ==>
      CatalogOf(hs, ps, rs)[i] == Item(Research, rs[i - |hs| - |ps|])
  {
    GroupsLayout(Tag(Hero, hs), Tag(Product, ps), Tag(Research, rs));
  }

  /** Groups with distinct ids make a catalog with distinct kind-and-id pairs. */
  lemma CatalogOfDistinct(hs: seq<Record>, ps: seq<Record>, rs: seq<Record>)
    requires DistinctIds(hs) && DistinctIds(ps) && DistinctIds(rs)
    ensures DistinctItems(CatalogOf(hs, ps, rs))
  {
    var c := CatalogOf(hs, ps, rs);
    CatalogOfLayout(hs, ps, rs);
    forall i, j | 0 <= i < j < |c|
      ensures c[i].kind != c[j].kind || c[i].record.id != c[j].record.id
    {
      if c[i].kind == c[j].kind {
        if j < |hs| {
          assert c[i].record == hs[i] && c[j].record == hs[j];
        } else if j < |hs| + |ps| {
          assert c[i].record == ps[i - |hs|] && c[j].record == ps[j - |hs|];
        } else {
          assert c[i].record == rs[i - |hs| - |ps|] && c[j].record == rs[j - |hs| - |ps|];
        }
      }
    }
  }

  /** Distinct kind-and-id pairs give distinct keys. */
  lemma DistinctItemsKeys(c: seq<Item>)
    requires DistinctItems(c)
    ensures forall i, j :: 0 <= i < j < |c| ==> Key(c[i]) != Key(c[j])
  {
    forall i, j | 0 <= i < j < |c|
      ensures Key(c[i]) != Key(c[j])
    {
      KeyInjective(c[i], c[j]);
    }
  }

  // ------------------------------------------------------ one group at a time

  lemma HeroFacts()
    ensures |HeroItems| == 2 && DistinctIds(HeroItems)
    ensures HeroItems[0].id == "sora"
    ensures forall k :: 0 <= k < 2 ==> HeroItems[k].content == None && HeroItems[k].date == None
    ensures forall k :: 0 <= k < 2 ==> HeroItems[k].title != "Safety & Alignment" && HeroItems[k].title != "Research"
  {
  }

  lemma ProductIds()
    ensures |Products| == 8 && DistinctIds(Products)
    ensures Products[0].id == "sora"
  {
  }

  lemma ProductTitles()
    ensures |Products| == 8
    ensures forall k :: 0 <= k < 8 ==> Products[k].title != "Safety & Alignment" && Products[k].title != "Research"
  {
  }

  lemma ResearchIds()
    ensures |ResearchItems| == 8 && DistinctIds(ResearchItems)
  {
  }

  lemma ResearchTitles()
    ensures |ResearchItems| == 8
    ensures forall k :: 0 <= k < 8 ==> (ResearchItems[k].title == "Safety & Alignment" <==> k == 0 || k == 2 || k == 5 || k == 7)
    ensures forall k :: 0 <= k < 8 ==> (ResearchItems[k].title == "Research" <==> k == 3 || k == 4 || k == 6)
  {
  }

  // ------------------------------------------------------------ the catalog

  /**
   The catalog holds 18 items: the two hero items tagged Hero, then the eight
   products tagged Product, then the eight research posts tagged Research,
   each group in source order and each record otherwise unchanged.
   */
  lemma CatalogLayout()
    ensures |HeroItems| == 2 && |Products| == 8 && |ResearchItems| == 8
    ensures |AllContent()| == 18
    ensures forall i :: 0 <= i < 2 ==> AllContent()[i] == Item(Hero, HeroItems[i])
    ensures forall i :: 2 <= i < 10 ==> AllContent()[i] == Item(Product, Products[i - 2])
    ensures forall i :: 10 <= i < 18 ==> AllContent()[i] == Item(Research, ResearchItems[i - 10])
  {
    HeroFacts();
    ProductIds();
    ResearchIds();
    CatalogOfLayout(HeroItems, Products, ResearchItems);
  }

  lemma CatalogSize()
    ensures |AllContent()| == 18
  {
    assert |HeroItems| == 2 && |Products| == 8 && |ResearchItems| == 8;
    CatalogOfLayout(HeroItems, Products, ResearchItems);
  }

  /** No two catalog items share kind and id, so no two share a key. */
  lemma CatalogKeysDistinct()
    ensures DistinctItems(AllContent())
    ensures forall i, j :: 0 <= i < j < |AllContent()| ==> Key(AllContent()[i]) != Key(AllContent()[j])
  {
    HeroFacts();
    ProductIds();
    ResearchIds();
    CatalogOfDistinct(HeroItems, Products, ResearchItems);
    DistinctItemsKeys(AllContent());
  }

  /** The id "sora" is used twice, by a hero and a product, under distinct keys. */
  lemma SoraIdShared()
    ensures AllContent()[0].record.id == AllContent()[2].record.id == "sora"
    ensures Key(AllContent()[0]) == "Hero-sora" && Key(AllContent()[2]) == "Product-sora"
  {
    CatalogLayout();
    HeroFacts();
    ProductIds();
  }

  /** Hero items have no content and no date, so their content score is 0
      for every query. */
  lemma HeroesHaveNoContent(words: seq<string>)
    ensures forall i :: 0 <= i < 2 ==>
      AllContent()[i].record.content == None && AllContent()[i].record.date == None
    ensures forall i :: 0 <= i < 2 ==> FieldOverlap(words, AllContent()[i].record.content) == 0
  {
    CatalogLayout();
    HeroFacts();
  }

  /** Titles repeat: "Safety & Alignment" is the title of exactly the items at
      positions 10, 12, 15 and 17, and "Research" of exactly those at 13, 14
      and 16, so a query scores each group's items alike on title. */
  lemma RepeatedTitles()
    ensures forall i :: 0 <= i < |AllContent()| ==>
      (AllContent()[i].record.title == "Safety & Alignment" <==> i == 10 || i == 12 || i == 15 || i == 17)
    ensures forall i :: 0 <= i < |AllContent()| ==>
      (AllContent()[i].record.title == "Research" <==> i == 13 || i == 14 || i == 16)
  {
    CatalogLayout();
    HeroFacts();
    ProductTitles();
    ResearchTitles();
    var c := AllContent();
    forall i | 0 <= i < |c|
      ensures c[i].record.title == "Safety & Alignment" <==> i == 10 || i == 12 || i == 15 || i == 17
      ensures c[i].record.title == "Research" <==> i == 13 || i == 14 || i == 16
    {
      if i < 2 {
        assert c[i].record == HeroItems[i];
      } else if i < 10 {
        assert c[i].record == Products[i - 2];
      } else {
        assert c[i].record == ResearchItems[i - 10];
      }
    }
  }

  /** Whatever the query, search results over the catalog have distinct keys. */
  lemma CatalogSearchKeysDistinct(query: string)
    ensures UniqueKeys(SearchContent(query, AllContent()))
    ensures |SearchContent(query, AllContent())| <= 18
  {
    CatalogKeysDistinct();
    CatalogSize();
    SearchKeysUnique(query, AllContent());
  }

  /** A blank query returns all 18 catalog items at match 200. */
  lemma CatalogBlankQuery(query: string)
    requires query != [] && Text.IsBlank(query)
    ensures |SearchContent(query, AllContent())| == 18
    ensures forall h :: h in SearchContent(query, AllContent()) ==> h.matchScore == 200
  {
    CatalogSize();
    BlankQueryAllAt200(query, AllContent());
  }

}

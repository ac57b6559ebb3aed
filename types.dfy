/** The records of `types.ts`. */
module Types {
  import opened Wrappers

  /** One bilingual bulletin entry. */
  datatype NewsItem = NewsItem(titleEn: string, contentEn: string, titleTr: string, contentTr: string)

  /** A cited web page. */
  datatype Source = Source(url: string, title: string)

  /** What `fetchDailyNews` resolves to. */
  datatype NewsResponse = NewsResponse(items: seq<NewsItem>, sources: seq<Source>)

  /** The page's loading status. */
  datatype FetchState = IdleState | LoadingState | SuccessState | ErrorState

  /** The `web` part of a grounding chunk; at run time either field may be missing. */
  datatype Web = Web(uri: Option<string>, title: Option<string>)

  datatype GroundingChunk = GroundingChunk(web: Option<Web>)

  datatype GroundingMetadata = GroundingMetadata(groundingChunks: Option<seq<GroundingChunk>>)
}

/** The values of `constants.ts` that the core reads. */
module Constants {

  /** The six card illustrations, chosen by card position. */
  const PlaceholderImages: seq<string> := [
    "https://picsum.photos/seed/ai_tech_1/800/400",
    "https://picsum.photos/seed/robot_arm/800/400",
    "https://picsum.photos/seed/neural_net/800/400",
    "https://picsum.photos/seed/cyberpunk/800/400",
    "https://picsum.photos/seed/data_stream/800/400",
    "https://picsum.photos/seed/future_city/800/400"
  ]
}
